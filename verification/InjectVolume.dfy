/** extra/xcfs_inject.py on the same volumes: loading, checking and injecting as functions. */
module InjectVolume {
  import opened XcfsTypes
  import opened XcfsTree
  import opened XcfsVolume
  import opened Options
  import opened Ranges
  import opened Paths

  /** `max(1, (size + 511) // 512)`, without a width. */
  function Count(size: nat): (n: nat)
    ensures n > 0 && size <= 512 * n && (n == 1 || 512 * (n - 1) < size)
  {
    if size == 0 then 1 else (size + 511) / 512
  }

  /** The script and the driver count the same sectors exactly for the sizes that the driver can round up. */
  lemma CountAgreesIff(size: nat)
    ensures Count(size) == SectorsOf(size) <==> size <= 0xFFFF_FE00
  {
  }

  predicate Within(e: Entry, x: nat) {
    e.start <= x < e.start + Count(e.size)
  }

  predicate Beside(a: Entry, b: Entry) {
    a.start + Count(a.size) <= b.start || b.start + Count(b.size) <= a.start
  }

  /** `_tst`. */
  predicate Marked(v: Vol, x: nat) {
    x < v.lay.dataStart || (x - v.lay.dataStart < |v.bits| && v.bits[x - v.lay.dataStart])
  }

  /** A file entry lies in the data area, on sectors that the bitmap has set. */
  ghost predicate Placed(v: Vol, e: Entry) {
    && v.lay.dataStart <= e.start && e.start + Count(e.size) <= v.hdr.total
    && forall x :: Within(e, x) ==> Marked(v, x)
  }

  /** What `check` looks for. */
  ghost predicate Passes(v: Vol)
    requires v.hdr.count <= |v.ents|
  {
    && v.ents != [] && v.ents[0].path == "/" && DistinctPaths(TableOf(v))
    && forall i :: 0 <= i < v.hdr.count && IsFile(v.ents[i]) ==> Placed(v, v.ents[i])
  }

  /** What `check` does not look for: no two files share a sector. */
  ghost predicate Disjoint(v: Vol)
    requires v.hdr.count <= |v.ents|
  {
    forall i, j :: 0 <= i < j < v.hdr.count && IsFile(v.ents[i]) && IsFile(v.ents[j]) ==> Beside(v.ents[i], v.ents[j])
  }

  /** Sizes and bounds of an image whose metadata lies in front of its data area. */
  ghost predicate Shaped(v: Vol) {
    && v.hdr.magic == MAGIC && v.hdr.version == VERSION
    && Fits(v.lay, v.hdr.total) && v.lay.dataStart < v.hdr.total <= |v.disk|
    && v.hdr.count <= |v.ents| <= v.lay.maxFiles && |v.ents| == (if v.hdr.count == 0 then 1 else v.hdr.count)
    && |v.bits| == 4096 * BitmapSectors(v.hdr.total)
    && (forall x :: v.lay.dataStart <= x < v.hdr.total ==> v.disk[x].Data? && |v.disk[x].bytes| == 512)
  }

  ghost predicate Healthy(v: Vol) {
    Shaped(v) && Passes(v) && Disjoint(v)
  }

  // ---------------------------------------------------------------- inject

  /** `(old & PROT) | (flags & ~PROT)` when flags are given; the old ones have no PROT. */
  function NewFlags(old': nat, flags: nat): nat {
    if flags == 0 then old' else flags - (if HasFlag(flags, PROTECTED) then PROTECTED else 0)
  }

  /** The first run of `n` free sectors. */
  function FreeRun(v: Vol, n: nat): Option<nat>
    requires v.lay.dataStart <= v.hdr.total && v.hdr.total - v.lay.dataStart <= |v.bits|
  {
    match FirstRun(v.bits, v.hdr.total - v.lay.dataStart, n, 0)
    case None => None
    case Some(k) => Some(v.lay.dataStart + k)
  }

  /** The file of slot `i` with new contents in the sectors it has. */
  function InPlace(v: Vol, i: nat, data: seq<Byte>, flags: nat): Vol
    requires i < |v.ents|
  {
    var e := v.ents[i];
    var e' := e.(size := |data|, flags := NewFlags(e.flags, flags));
    var v' := v.(disk := WriteSectors(v.disk, e.start, data, Count(|data|)), ents := v.ents[i := e']);
    SaveEntries(v', i, i + 1)
  }

  /** The file of slot `i` with new contents in the sectors from `start` on. */
  function Relocated(v: Vol, i: nat, start: nat, data: seq<Byte>, flags: nat): Vol
    requires i < |v.ents|
  {
    var e, n := v.ents[i], Count(|data|);
    var e' := e.(start := start, size := |data|, flags := NewFlags(e.flags, flags));
    var v' := v.(
      bits := Mark(Mark(v.bits, v.lay.dataStart, start, n, true), v.lay.dataStart, e.start, Count(e.size), false),
      disk := WriteSectors(v.disk, start, data, n),
      ents := v.ents[i := e']);
    SaveBitmap(SaveEntries(v', i, i + 1))
  }

  /** `_overwrite`; nothing stands for `die`. */
  function OverwriteOn(v: Vol, i: nat, data: seq<Byte>, flags: nat): Option<Vol>
    requires i < |v.ents| && v.lay.dataStart <= v.hdr.total && v.hdr.total - v.lay.dataStart <= |v.bits|
  {
    var e := v.ents[i];
    if HasFlag(e.flags, PROTECTED) || HasFlag(e.flags, READONLY) || !IsFile(e) then None
    else if Count(|data|) <= Count(e.size) then
      if e.start + Count(|data|) > v.hdr.total then None else Some(InPlace(v, i, data, flags))
    else
      match FreeRun(v, Count(|data|))
      case None => None
      case Some(start) => Some(Relocated(v, i, start, data, flags))
  }

  /** A new file behind the last used slot. */
  function Appended(v: Vol, norm: string, par: nat, start: nat, data: seq<Byte>, flags: nat): Vol
    requires v.hdr.count <= |v.ents|
  {
    var n := Count(|data|);
    var e := Entry(norm, start, |data|, par, FILE, flags - (if HasFlag(flags, PROTECTED) then PROTECTED else 0));
    var v' := v.(
      bits := Mark(v.bits, v.lay.dataStart, start, n, true),
      disk := WriteSectors(v.disk, start, data, n),
      ents := TableOf(v) + [e],
      hdr := v.hdr.(count := v.hdr.count + 1));
    SaveBitmap(SaveHeader(SaveEntries(v', v.hdr.count, v.hdr.count + 1)))
  }

  /** `_par`. */
  function ParentOf(v: Vol, norm: string): Option<nat>
    requires v.hdr.count <= |v.ents|
  {
    match FindParent(TableOf(v), norm)
    case None => None
    case Some(d) =>
      if norm == "/" then Some(0) else if d < v.hdr.count && v.ents[d].kind == DIR then Some(d) else None
  }

  /** `_create`. */
  function CreateFileOn(v: Vol, norm: string, data: seq<Byte>, flags: nat): Option<Vol>
    requires v.hdr.count <= |v.ents| && v.lay.dataStart <= v.hdr.total && v.hdr.total - v.lay.dataStart <= |v.bits|
  {
    if v.hdr.count >= v.lay.maxFiles then None
    else
      match ParentOf(v, norm)
      case None => None
      case Some(par) =>
        match FreeRun(v, Count(|data|))
        case None => None
        case Some(start) => Some(Appended(v, norm, par, start, data, flags))
  }

  /** `inject`; sizes of 2^32 or more do not fit the entry and end the script as well. */
  function InjectOn(v: Vol, path: string, data: seq<Byte>, flags: nat): Option<Vol>
    requires v.hdr.count <= |v.ents| && v.lay.dataStart <= v.hdr.total && v.hdr.total - v.lay.dataStart <= |v.bits|
  {
    var norm := Norm(path);
    if |norm| >= 248 || |data| >= 0x1_0000_0000 then None
    else
      match Find(TableOf(v), norm)
      case Some(i) => OverwriteOn(v, i, data, flags)
      case None => CreateFileOn(v, norm, data, flags)
  }

  // ---------------------------------------------------------------- loading

  /** `_load_hdr`, `_chk_hdr`, `_load_ents` and `_load_bmp`; nothing stands for `die`. */
  function LoadOn(lay: Layout, disk: seq<Sector>): Option<Vol> {
    if !(lay.meta < |disk| && disk[lay.meta].HeaderSector?) then None
    else
      var h := disk[lay.meta].h;
      var total := if h.total > |disk| then |disk| else h.total;
      var n := if h.count == 0 then 1 else h.count;
      if h.magic != MAGIC || h.version != VERSION || h.count > lay.maxFiles || lay.dataStart >= total then None
      else if lay.meta + 1 + n > |disk| || BitmapStart(lay) + BitmapSectors(total) > |disk| then None
      else
        var ents := seq(n, i requires 0 <= i < n =>
          if disk[lay.meta + 1 + i].EntrySector? then disk[lay.meta + 1 + i].e else BLANK);
        Some(Vol(lay, h.(total := total), ents, LoadBits(disk, BitmapStart(lay), 0, BitmapSectors(total)), disk))
  }

  /** The header sector says what the cache says, up to the clamping of its sector count. */
  predicate HeaderStored(v: Vol)
    requires v.lay.meta < |v.disk|
  {
    var s := v.disk[v.lay.meta];
    && s.HeaderSector? && s.h.(total := v.hdr.total) == v.hdr
    && v.hdr.total == if s.h.total > |v.disk| then |v.disk| else s.h.total
  }

  /** The image holds header, entries and bitmap as they are cached. */
  ghost predicate Stored(v: Vol)
    requires Shaped(v)
  {
    HeaderStored(v) && SlotsSynced(v, |v.ents|) && BitsSynced(v)
  }

  /** The next start of the script sees the image as the last one left it. */
  lemma LoadRestores(v: Vol)
    requires Shaped(v) && Stored(v)
    ensures LoadOn(v.lay, v.disk) == Some(v)
  {
    LoadBitsIs(v, 0);
    assert v.bits[0..] == v.bits;
    var w := LoadOn(v.lay, v.disk);
    assert w.Some?;
    forall i | 0 <= i < |v.ents|
      ensures w.value.ents[i] == v.ents[i]
    {
      assert SlotSynced(v, i);
    }
    assert w.value.ents == v.ents;
  }

  // ---------------------------------------------------------------- when a passing check means disjoint files

  /** The sectors of the files, taken together and counted one by one. */
  function Owned(t: seq<Entry>): set<nat> {
    if t == [] then {}
    else Owned(t[..|t| - 1]) + (if IsFile(t[|t| - 1]) then SectorsAt(t[|t| - 1]) else {})
  }

  function SectorsAt(e: Entry): set<nat> {
    Range(e.start, e.start + Count(e.size))
  }

  function Total(t: seq<Entry>): nat {
    if t == [] then 0 else Total(t[..|t| - 1]) + (if IsFile(t[|t| - 1]) then Count(t[|t| - 1].size) else 0)
  }

  /** No two files of the table share a sector. */
  ghost predicate AllBeside(t: seq<Entry>) {
    forall i, j :: 0 <= i < j < |t| && IsFile(t[i]) && IsFile(t[j]) ==> Beside(t[i], t[j])
  }

  lemma {:induction false} OwnedMember(t: seq<Entry>, x: nat)
    ensures x in Owned(t) <==> exists i :: 0 <= i < |t| && IsFile(t[i]) && Within(t[i], x)
  {
    if t != [] {
      var init := t[..|t| - 1];
      OwnedMember(init, x);
      if i :| 0 <= i < |t| && IsFile(t[i]) && Within(t[i], x) {
        assert i < |init| ==> init[i] == t[i];
      }
      if i :| 0 <= i < |init| && IsFile(init[i]) && Within(init[i], x) {
        assert t[i] == init[i];
      }
    }
  }

  lemma BesideIff(a: Entry, b: Entry)
    ensures Beside(a, b) <==> SectorsAt(a) !! SectorsAt(b)
  {
    if !Beside(a, b) {
      var x := if a.start <= b.start then b.start else a.start;
      assert x in SectorsAt(a) && x in SectorsAt(b);
    }
  }

  lemma LastBesideIff(t: seq<Entry>)
    requires t != [] && IsFile(t[|t| - 1])
    ensures AllBeside(t) <==> AllBeside(t[..|t| - 1]) && Owned(t[..|t| - 1]) !! SectorsAt(t[|t| - 1])
  {
    var init, e := t[..|t| - 1], t[|t| - 1];
    hide Count;
    if Owned(init) !! SectorsAt(e) {
      forall i | 0 <= i < |init| && IsFile(t[i])
        ensures Beside(t[i], e)
      {
        BesideIff(t[i], e);
        forall x: nat | x in SectorsAt(t[i])
          ensures x in Owned(init)
        {
          OwnedMember(init, x);
          assert init[i] == t[i];
        }
      }
    }
    if AllBeside(t) {
      forall x: nat | x in Owned(init)
        ensures x !in SectorsAt(e)
      {
        OwnedMember(init, x);
        var i :| 0 <= i < |init| && IsFile(init[i]) && Within(init[i], x);
        BesideIff(t[i], e);
      }
    }
  }

  /** The files own at most as many sectors as they count, and as many exactly when no two share one. */
  lemma {:induction false} OwnedCountIff(t: seq<Entry>)
    ensures |Owned(t)| <= Total(t)
    ensures |Owned(t)| == Total(t) <==> AllBeside(t)
  {
    if t != [] {
      OwnedCountIff(t[..|t| - 1]);
      hide AllBeside, Count, SectorsAt;
      if IsFile(t[|t| - 1]) {
        FileCounted(t);
      } else {
        BesideBefore(t);
      }
    }
  }

  lemma BesideBefore(t: seq<Entry>)
    requires t != [] && !IsFile(t[|t| - 1])
    ensures AllBeside(t) <==> AllBeside(t[..|t| - 1])
  {
  }

  lemma FileCounted(t: seq<Entry>)
    requires t != [] && IsFile(t[|t| - 1]) && |Owned(t[..|t| - 1])| <= Total(t[..|t| - 1])
    requires |Owned(t[..|t| - 1])| == Total(t[..|t| - 1]) <==> AllBeside(t[..|t| - 1])
    ensures |Owned(t)| <= Total(t) && (|Owned(t)| == Total(t) <==> AllBeside(t))
  {
    var init, e := t[..|t| - 1], t[|t| - 1];
    hide Owned, Total, AllBeside, Count, Range, SectorsAt, IsFile;
    LastCounted(t);
    SectorsSize(e);
    LastBesideIff(t);
    OneMoreCounted(Owned(init), Total(init), AllBeside(init), SectorsAt(e), Count(e.size));
  }

  lemma LastCounted(t: seq<Entry>)
    requires t != [] && IsFile(t[|t| - 1])
    ensures Owned(t) == Owned(t[..|t| - 1]) + SectorsAt(t[|t| - 1])
    ensures Total(t) == Total(t[..|t| - 1]) + Count(t[|t| - 1].size)
  {
  }

  lemma SectorsSize(e: Entry)
    ensures |SectorsAt(e)| == Count(e.size)
  {
    RangeSize(e.start, e.start + Count(e.size));
  }

  lemma OneMoreCounted(a: set<nat>, n: nat, exact: bool, b: set<nat>, m: nat)
    requires |a| <= n && (|a| == n <==> exact) && |b| == m
    ensures |a + b| <= n + m && (|a + b| == n + m <==> exact && a !! b)
  {
    UnionSize(a, b);
  }

  function SetBits(bits: seq<bool>): nat {
    if bits == [] then 0 else SetBits(bits[..|bits| - 1]) + (if bits[|bits| - 1] then 1 else 0)
  }

  /** The sectors whose bits are set, for a bitmap whose first bit stands for sector `lo`. */
  function Marks(bits: seq<bool>, lo: nat): set<nat> {
    if bits == [] then {}
    else Marks(bits[..|bits| - 1], lo) + (if bits[|bits| - 1] then {lo + |bits| - 1} else {})
  }

  lemma {:induction false} MarksMember(bits: seq<bool>, lo: nat, x: nat)
    ensures x in Marks(bits, lo) <==> lo <= x < lo + |bits| && bits[x - lo]
  {
    if bits != [] {
      MarksMember(bits[..|bits| - 1], lo, x);
    }
  }

  lemma {:induction false} MarksCount(bits: seq<bool>, lo: nat)
    ensures |Marks(bits, lo)| == SetBits(bits)
  {
    if bits != [] {
      var init := bits[..|bits| - 1];
      MarksCount(init, lo);
      MarksMember(init, lo, lo + |bits| - 1);
    }
  }

  /** Every set bit belongs to a file. */
  ghost predicate BitsOwned(v: Vol)
    requires v.hdr.count <= |v.ents|
  {
    forall x: nat :: x in Marks(v.bits, v.lay.dataStart) ==> x in Owned(TableOf(v))
  }

  lemma OwnedIsMarked(v: Vol, x: nat)
    requires v.hdr.count <= |v.ents| && Passes(v) && x in Owned(TableOf(v))
    ensures x in Marks(v.bits, v.lay.dataStart)
  {
    var t := TableOf(v);
    OwnedMember(t, x);
    MarksMember(v.bits, v.lay.dataStart, x);
    hide Count, DistinctPaths;
    var i :| 0 <= i < |t| && IsFile(t[i]) && Within(t[i], x);
    assert t[i] == v.ents[i] && Placed(v, v.ents[i]);
  }

  /**
   An image that passes the check, and whose set bits all belong to a file, has no two files on one sector
   exactly when as many bits are set as the files count sectors.
   */
  lemma PassesDisjointIff(v: Vol)
    requires v.hdr.count <= |v.ents| && Passes(v) && BitsOwned(v)
    ensures Disjoint(v) <==> SetBits(v.bits) == Total(TableOf(v))
  {
    hide Passes, Marks, Owned, SetBits, Total, Beside;
    forall x: nat | x in Owned(TableOf(v))
      ensures x in Marks(v.bits, v.lay.dataStart)
    {
      OwnedIsMarked(v, x);
    }
    assert Marks(v.bits, v.lay.dataStart) == Owned(TableOf(v));
    MarksCount(v.bits, v.lay.dataStart);
    OwnedCountIff(TableOf(v));
  }

  // ---------------------------------------------------------------- an image that the check lets through

  /** The cache of an image with two files on the same sector. */
  function OverlappingCache(): Vol {
    Vol(Layout(0, 3, 5), Header(MAGIC, VERSION, 8, 3),
        [Entry("/", 0, 0, 0, DIR, PROTECTED), Entry("/a", 5, 1, 0, FILE, 0), Entry("/b", 5, 1, 0, FILE, 0)],
        seq(4096, k => k == 0), [])
  }

  /** The image: header, three entries, the bitmap and three data sectors. */
  function OverlappingDisk(): seq<Sector> {
    var c := OverlappingCache();
    [HeaderSector(c.hdr), EntrySector(c.ents[0]), EntrySector(c.ents[1]), EntrySector(c.ents[2]), BitmapSector(c.bits),
     Zeros(), Zeros(), Zeros()]
  }

  lemma OverlappingLoads(v: Vol)
    requires v == OverlappingCache().(disk := OverlappingDisk())
    ensures LoadOn(v.lay, OverlappingDisk()) == Some(v) && Shaped(v)
  {
    assert forall i :: 0 <= i < |v.ents| ==> SlotSynced(v, i);
    assert v.bits[0..4096] == v.bits;
    assert BitmapSynced(v, 0);
    LoadRestores(v);
  }

  /** The script loads the image and its check finds nothing, though the two files share a sector. */
  lemma CheckMissesOverlap()
    ensures match LoadOn(Layout(0, 3, 5), OverlappingDisk())
            case None => false
            case Some(v) => Shaped(v) && Passes(v) && !Disjoint(v)
  {
    var v := OverlappingCache().(disk := OverlappingDisk());
    OverlappingLoads(v);
    assert v.ents[1].path != v.ents[2].path && v.ents[0].path != v.ents[1].path && v.ents[0].path != v.ents[2].path by {
      assert |v.ents[0].path| == 1 && v.ents[1].path[1] == 'a' && v.ents[2].path[1] == 'b';
    }
    assert TableOf(v) == v.ents;
    assert IsFile(v.ents[1]) && IsFile(v.ents[2]) && !Beside(v.ents[1], v.ents[2]);
  }
}
