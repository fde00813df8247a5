/** What formatting, creating and writing keep: extents, bitmap, the tree, and agreement with the disk. */
module XcfsLaws {
  import opened XcfsTypes
  import opened XcfsContent
  import opened XcfsTree
  import opened XcfsVolume
  import opened Options

  /** Data sectors outside `[start, start + n)` are the same on both disks. */
  ghost predicate DataKept(v: Vol, v': Vol, start: nat, n: nat) {
    && |v'.disk| == |v.disk|
    && forall x :: v.lay.dataStart <= x < |v.disk| && !(start <= x < start + n) ==> v'.disk[x] == v.disk[x]
  }

  // ---------------------------------------------------------------- saving

  /** Saving the header and the slots from `from` on; the bitmap sectors and the data stay. */
  lemma TableSaved(v: Vol, from: nat, to: nat)
    requires Shape(v) && from <= v.hdr.count && v.hdr.count <= to <= v.lay.maxFiles && SlotsSynced(v, from)
    ensures var v' := SaveEntries(SaveHeader(v), from, to);
            && Shape(v') && DataKept(v, v', 0, 0)
            && v'.disk[v.lay.meta] == HeaderSector(v.hdr) && SlotsSynced(v', v.hdr.count)
            && (BitsSynced(v) ==> BitsSynced(v'))
  {
    hide SectorsOf, Honest;
    var v' := SaveEntries(SaveHeader(v), from, to);
    forall i | 0 <= i < v.hdr.count
      ensures SlotSynced(v', i)
    {
      if i < from {
        assert SlotSynced(v, i);
      }
    }
    if BitsSynced(v) {
      forall i | 0 <= i < BitmapSectors(v.hdr.total)
        ensures BitmapSynced(v', i)
      {
        assert BitmapSynced(v, i);
      }
    }
  }

  lemma BitmapSaved(v: Vol)
    requires Shape(v)
    ensures var v' := SaveBitmap(v);
            && Shape(v') && DataKept(v, v', 0, 0) && BitsSynced(v')
            && v'.disk[v.lay.meta] == v.disk[v.lay.meta]
            && (SlotsSynced(v, v.hdr.count) ==> SlotsSynced(v', v.hdr.count))
  {
    hide SectorsOf, Honest;
    var v' := SaveBitmap(v);
    if SlotsSynced(v, v.hdr.count) {
      forall i | 0 <= i < v.hdr.count
        ensures SlotSynced(v', i)
      {
        assert SlotSynced(v, i);
      }
    }
  }

  /** Saving header, slots and bitmap makes cache and disk agree. */
  lemma AllSaved(v: Vol, from: nat, to: nat)
    requires Shape(v) && from <= v.hdr.count && v.hdr.count <= to <= v.lay.maxFiles && SlotsSynced(v, from)
    ensures var v' := SaveBitmap(SaveEntries(SaveHeader(v), from, to)); Shape(v') && Synced(v') && DataKept(v, v', 0, 0)
  {
    TableSaved(v, from, to);
    hide Shape, SlotsSynced, BitsSynced;
    BitmapSaved(SaveEntries(SaveHeader(v), from, to));
  }

  lemma BitsStay(v: Vol, v': Vol)
    requires Shape(v) && BitsSynced(v)
    requires v'.lay == v.lay && v'.hdr.total == v.hdr.total && v'.bits == v.bits && |v'.disk| == |v.disk|
    requires forall x :: BitmapStart(v.lay) <= x < v.lay.dataStart ==> v'.disk[x] == v.disk[x]
    ensures BitsSynced(v')
  {
    forall i | 0 <= i < BitmapSectors(v.hdr.total)
      ensures BitmapSynced(v', i)
    {
      assert BitmapSynced(v, i);
    }
  }

  /** A cache change behind slot `n` leaves the slots in front of it as saved. */
  lemma SlotsStay(v: Vol, v': Vol, n: nat)
    requires n <= |v.ents| && v.lay.meta + 1 + n <= |v.disk| && SlotsSynced(v, n)
    requires v'.lay == v.lay && |v'.ents| == |v.ents| && |v'.disk| == |v.disk|
    requires forall i :: 0 <= i < n ==> v'.ents[i] == v.ents[i]
    requires forall x :: 0 <= x < |v.disk| && x < v.lay.meta + 1 + n ==> v'.disk[x] == v.disk[x]
    ensures SlotsSynced(v', n)
  {
    forall i | 0 <= i < n
      ensures SlotSynced(v', i)
    {
      assert SlotSynced(v, i);
    }
  }

  // ---------------------------------------------------------------- xcfs_format

  predicate Mountable(lay: Layout, disk: seq<Sector>, total: nat) {
    && lay.maxFiles > 0 && Fits(lay, total) && total <= |disk| && total < 0x1_0000_0000
    && forall x :: lay.dataStart <= x < total ==> disk[x].Data? && |disk[x].bytes| == 512
  }

  /** A fresh volume holds the root and nothing else, is coherent, and agrees with its disk. */
  lemma FormatLaw(lay: Layout, disk: seq<Sector>, total: nat)
    requires Mountable(lay, disk, total)
    ensures var v := FormatOn(lay, disk, total);
            VolOk(v) && Exact(v) && Synced(v) && TreeOk(TableOf(v)) && |TableOf(v)| == 1
    ensures var v := FormatOn(lay, disk, total);
            && v.lay == lay && v.hdr == Header(0x58434653, 2, total, 1)
            && TableOf(v) == [Entry("/", 0, 0, 0, 2, 4)] && forall k :: 0 <= k < |v.bits| ==> !v.bits[k]
  {
    var ents := seq(lay.maxFiles, i => if i == 0 then Entry("/", 0, 0, 0, DIR, PROTECTED) else BLANK);
    var v0 := Vol(lay, Header(MAGIC, VERSION, total, 1), ents, seq(4096 * BitmapSectors(total), _ => false), disk);
    assert Shape(v0);
    AllSaved(v0, 0, 1);
    assert TableOf(FormatOn(lay, disk, total)) == [ents[0]];
  }

  // ---------------------------------------------------------------- adding an entry

  lemma AddedTable(v: Vol, e: Entry)
    requires v.hdr.count < |v.ents|
    ensures TableOf(AddEntry(v, e)) == TableOf(v) + [e]
  {
  }

  lemma OwnedByMore(t: Table, e: Entry, x: nat)
    ensures OwnedBut(t + [e], -1, x) <==> OwnedBut(t, -1, x) || (IsFile(e) && InExtent(e, x))
  {
    hide SectorsOf;
    var t' := t + [e];
    assert t'[|t|] == e;
    if OwnedBut(t, -1, x) {
      var i :| 0 <= i < |t| && i != -1 && IsFile(t[i]) && InExtent(t[i], x);
      assert t'[i] == t[i];
    }
  }

  /** `xcfs_mkdir` adds one directory entry and changes neither extents nor bitmap nor data. */
  lemma MkdirLaw(v: Vol, norm: string)
    requires VolOk(v) && Exact(v)
    ensures var (v', ok) := MkdirOn(v, norm);
            && VolOk(v') && Exact(v') && DataKept(v, v', 0, 0) && v'.bits == v.bits
            && (ok <==>
                v.hdr.count < v.lay.maxFiles && Find(TableOf(v), norm).None? && FindParent(TableOf(v), norm).Some?)
            && (ok ==> TableOf(v') == TableOf(v) + [Entry(norm, 0, 0, FindParent(TableOf(v), norm).value, DIR, 0)])
            && (!ok ==> v' == v)
            && (Synced(v) ==> Synced(v'))
  {
    hide SectorsOf, Find, FindParent, VolOk, Exact, DataKept, Synced, AddEntry, SaveEntries, SaveHeader;
    InTable(v);
    var (v', ok) := MkdirOn(v, norm);
    if ok {
      DirectoryAdded(v, Entry(norm, 0, 0, FindParent(TableOf(v), norm).value, DIR, 0));
    } else {
      NothingMoved(v);
    }
  }

  lemma InTable(v: Vol)
    requires VolOk(v)
    ensures v.hdr.count <= |v.ents| == v.lay.maxFiles && Roomy(v)
  {
  }

  lemma NothingMoved(v: Vol)
    ensures DataKept(v, v, 0, 0)
  {
  }

  /** One more directory entry in the cache, and its slot and the header on the disk. */
  lemma DirectoryAdded(v: Vol, e: Entry)
    requires VolOk(v) && Exact(v) && v.hdr.count < v.lay.maxFiles && e == Entry(e.path, 0, 0, e.parent, DIR, 0)
    ensures v.hdr.count < |v.ents|
    ensures var v' := SaveEntries(SaveHeader(AddEntry(v, e)), v.hdr.count, v.hdr.count + 1);
            && VolOk(v') && Exact(v') && DataKept(v, v', 0, 0) && v'.bits == v.bits
            && TableOf(v') == TableOf(v) + [e] && (Synced(v) ==> Synced(v'))
  {
    hide SectorsOf;
    var v1 := AddEntry(v, e);
    var v' := SaveEntries(SaveHeader(v1), v.hdr.count, v.hdr.count + 1);
    AddedTable(v, e);
    SizeZero();
    assert Shape(v1);
    AddedDirectory(TableOf(v), e, v.bits, v.lay.dataStart, v.hdr.total);
    if Synced(v) {
      SlotsStay(v, v1, v.hdr.count);
      assert BitsSynced(v1) by { BitsStay(v, v1); }
      TableSaved(v1, v.hdr.count, v.hdr.count + 1);
    }
    assert TableOf(v') == TableOf(v1);
  }

  lemma SizeZero()
    ensures SectorsOf(0) == 1
  {
  }

  lemma AddedDirectory(t: Table, e: Entry, bits: seq<bool>, lo: nat, hi: nat)
    requires !IsFile(e) && AllApart(t, -1) && AllWithin(t, lo, hi) && BitsExact(bits, t, -1, lo)
    ensures AllApart(t + [e], -1) && AllWithin(t + [e], lo, hi) && BitsExact(bits, t + [e], -1, lo)
  {
    hide SectorsOf;
    forall k | 0 <= k < |bits|
      ensures bits[k] <==> OwnedBut(t + [e], -1, lo + k)
    {
      OwnedByMore(t, e, lo + k);
    }
  }

  // ---------------------------------------------------------------- xcfs_create

  /** A run of clear bits is an extent apart from every file. */
  lemma ClearIsFresh(t: Table, bits: seq<bool>, lo: nat, hi: nat, k: nat, size: nat, i: nat)
    requires AllWithin(t, lo, hi) && BitsExact(bits, t, -1, lo) && ClearRun(bits, k, SectorsOf(size))
    requires i < |t| && IsFile(t[i])
    ensures ExtentsApart(t[i], BLANK.(start := lo + k, size := size))
  {
    hide SectorsOf;
    forall x: nat | InExtent(t[i], x)
      ensures !(lo + k <= x < lo + k + SectorsOf(size))
    {
      assert OwnedBut(t, -1, x);
      if lo <= x < lo + |bits| {
        assert bits[x - lo] <==> OwnedBut(t, -1, lo + (x - lo));
      }
    }
    assert InExtent(t[i], t[i].start);
    assert t[i].start <= lo + k < t[i].start + SectorsOf(t[i].size) ==> InExtent(t[i], lo + k);
  }

  lemma AddedFile(t: Table, e: Entry, bits: seq<bool>, lo: nat, hi: nat)
    requires IsFile(e) && AllApart(t, -1) && AllWithin(t, lo, hi) && BitsExact(bits, t, -1, lo)
    requires lo <= e.start && e.start + SectorsOf(e.size) <= hi && ClearRun(bits, e.start - lo, SectorsOf(e.size))
    ensures AllApart(t + [e], -1) && AllWithin(t + [e], lo, hi)
    ensures BitsExact(Mark(bits, lo, e.start, SectorsOf(e.size), true), t + [e], -1, lo)
  {
    hide SectorsOf;
    var t' := t + [e];
    forall i, j | 0 <= i < j < |t'| && i != -1 && j != -1 && IsFile(t'[i]) && IsFile(t'[j])
      ensures ExtentsApart(t'[i], t'[j])
    {
      if j == |t| {
        ClearIsFresh(t, bits, lo, hi, e.start - lo, e.size, i);
      }
    }
    var bits' := Mark(bits, lo, e.start, SectorsOf(e.size), true);
    forall k | 0 <= k < |bits'|
      ensures bits'[k] <==> OwnedBut(t', -1, lo + k)
    {
      OwnedByMore(t, e, lo + k);
    }
  }

  /** Zero-filling data sectors keeps the volume coherent and in agreement with the disk. */
  lemma ZeroFilled(v: Vol, start: nat, n: nat)
    requires VolOk(v) && Exact(v) && v.lay.dataStart <= start
    ensures var v' := v.(disk := ZeroFill(v.disk, start, n));
            VolOk(v') && Exact(v') && TableOf(v') == TableOf(v) && DataKept(v, v', start, n)
              && (Synced(v) ==> Synced(v'))
  {
    hide SectorsOf, Honest;
    var v' := v.(disk := ZeroFill(v.disk, start, n));
    if Synced(v) {
      SlotsStay(v, v', v.hdr.count);
      BitsStay(v, v');
    }
  }

  /** The new file's entry. */
  function NewFile(v: Vol, norm: string, size: nat): Entry
    requires Roomy(v) && Admit(v, norm).Some? && Place(v, size).Some?
  {
    Entry(norm, Place(v, size).value, size, Admit(v, norm).value, FILE, 0)
  }

  lemma CreateCached(v: Vol, e: Entry)
    requires VolOk(v) && Exact(v) && v.hdr.count < v.lay.maxFiles && IsFile(e) && Honest(e)
    requires v.lay.dataStart <= e.start && e.start + SectorsOf(e.size) <= v.hdr.total
    requires ClearRun(v.bits, e.start - v.lay.dataStart, SectorsOf(e.size))
    ensures var v2 := AddEntry(v, e).(bits := Mark(v.bits, v.lay.dataStart, e.start, SectorsOf(e.size), true));
            VolOk(v2) && Exact(v2) && TableOf(v2) == TableOf(v) + [e]
  {
    AddedFile(TableOf(v), e, v.bits, v.lay.dataStart, v.hdr.total);
    hide SectorsOf;
    AddedTable(v, e);
    var v2 := AddEntry(v, e).(bits := Mark(v.bits, v.lay.dataStart, e.start, SectorsOf(e.size), true));
    assert TableOf(v2) == TableOf(v) + [e];
  }

  /**
   `xcfs_create` gives the file the first free run that is long enough, full of zeros, and changes
   no other data sector; it refuses for want of space only when there is no such run.
   */
  lemma CreateLaw(v: Vol, norm: string, size: nat)
    requires VolOk(v) && Exact(v) && size <= 0xFFFF_FE00
    ensures var (v', ok) := CreateOn(v, norm, size);
            && VolOk(v') && Exact(v')
            && (ok <==> Admit(v, norm).Some? && Place(v, size).Some?)
            && (!ok ==> v' == v)
            && (Synced(v) ==> Synced(v'))
    ensures var (v', ok) := CreateOn(v, norm, size);
            ok ==>
              var e := NewFile(v, norm, size);
              && TableOf(v') == TableOf(v) + [e]
              && DataKept(v, v', e.start, SectorsOf(size))
              && e.start + SectorsOf(size) <= |v'.disk|
              && forall s :: 0 <= s < SectorsOf(size) ==> Content(e, v'.disk)[s] == Zeros()
  {
    HonestIff(size);
    hide SectorsOf, Find, FindParent, FirstRun;
    var (v', ok) := CreateOn(v, norm, size);
    if ok {
      var e := NewFile(v, norm, size);
      var n := SectorsOf(size);
      CreateCached(v, e);
      var v2 := AddEntry(v, e).(bits := Mark(v.bits, v.lay.dataStart, e.start, n, true));
      CreateSaved(v, v2, e.start, n);
    }
  }

  lemma CreateSaved(v: Vol, v2: Vol, start: nat, n: nat)
    requires VolOk(v) && VolOk(v2) && Exact(v2) && v2.disk == v.disk && v2.lay == v.lay
    requires v2.hdr.count == v.hdr.count + 1 && forall i :: 0 <= i < v.hdr.count ==> v2.ents[i] == v.ents[i]
    requires v.lay.dataStart <= start && start + n <= v2.hdr.total
    ensures var v3 := SaveBitmap(SaveEntries(SaveHeader(v2), v.hdr.count, v.hdr.count + 1));
            var v' := v3.(disk := ZeroFill(v3.disk, start, n));
            && VolOk(v') && Exact(v') && TableOf(v') == TableOf(v2) && DataKept(v, v', start, n)
            && (Synced(v) ==> Synced(v'))
  {
    hide SectorsOf;
    var v1 := SaveEntries(SaveHeader(v2), v.hdr.count, v.hdr.count + 1);
    var v3 := SaveBitmap(v1);
    SavesKeepRest(v2, v.hdr.count, v.hdr.count + 1);
    if Synced(v) {
      SlotsStay(v, v2, v.hdr.count);
      AllSaved(v2, v.hdr.count, v.hdr.count + 1);
    }
    hide Synced;
    ZeroFilled(v3, start, n);
  }

  lemma SavesKeepRest(v: Vol, from: nat, to: nat)
    requires VolOk(v) && Exact(v) && from <= to <= v.lay.maxFiles
    ensures var v3 := SaveBitmap(SaveEntries(SaveHeader(v), from, to));
            VolOk(v3) && Exact(v3) && TableOf(v3) == TableOf(v) && DataKept(v, v3, 0, 0) && v3.hdr == v.hdr
              && v3.lay == v.lay
  {
  }

  /** No run of free sectors in the data area is long enough, or the place is the first of them. */
  lemma PlaceIsFirst(v: Vol, size: nat)
    requires Roomy(v)
    ensures var lim := v.hdr.total - v.lay.dataStart; var n := SectorsOf(size);
            match Place(v, size)
            case None => forall k: nat :: k + n <= lim ==> !ClearRun(v.bits, k, n)
            case Some(s) =>
              && v.lay.dataStart <= s && s + n <= v.hdr.total && ClearRun(v.bits, s - v.lay.dataStart, n)
              && forall k: nat :: k < s - v.lay.dataStart ==> !ClearRun(v.bits, k, n)
  {
  }

  // ---------------------------------------------------------------- xcfs_write, then xcfs_read

  lemma {:induction false} FlatLength(c: seq<Sector>)
    requires IsDataDisk(c)
    ensures |Flat(c)| == 512 * |c|
  {
    if c != [] {
      FlatLength(c[1..]);
    }
  }

  function Drop(data: seq<Byte>, n: nat): seq<Byte> {
    if n <= |data| then data[n..] else []
  }

  /** Sectors filled chunk by chunk hold the data, from chunk `s` on. */
  lemma {:induction false} FlatChunks(c: seq<Sector>, data: seq<Byte>, s: nat)
    requires forall i :: 0 <= i < |c| ==> c[i] == Chunk(data, s + i)
    requires |data| <= 512 * (s + |c|)
    ensures IsDataDisk(c) && |Flat(c)| == 512 * |c|
    ensures Drop(data, 512 * s) <= Flat(c)
  {
    hide Chunk;
    FlatLength(c);
    if c != [] {
      assert c[0] == Chunk(data, s + 0);
      assert forall i :: 0 <= i < |c[1..]| ==> c[1..][i] == Chunk(data, s + 1 + i);
      hide Drop;
      FlatChunks(c[1..], data, s + 1);
      ChunkStep(data, s, Flat(c[1..]));
    }
  }

  lemma ChunkStep(data: seq<Byte>, s: nat, rest: seq<Byte>)
    requires Drop(data, 512 * (s + 1)) <= rest
    ensures Drop(data, 512 * s) <= Chunk(data, s).bytes + rest
  {
  }

  lemma SectorsMonotone(a: nat, b: nat)
    requires a <= b <= 0xFFFF_FE00
    ensures SectorsOf(a) <= SectorsOf(b) && a <= 512 * SectorsOf(a)
  {
  }

  /** After a write the first sectors of the file's content spell the data. */
  lemma WrittenContent(disk: seq<Sector>, e: Entry, data: seq<Byte>, n: nat)
    requires e.start + SectorsOf(e.size) <= |disk| && n <= SectorsOf(e.size) && |data| <= 512 * n
    ensures data <= Flat(Content(e, WriteSectors(disk, e.start, data, n)))
  {
    hide SectorsOf;
    var c := Content(e, WriteSectors(disk, e.start, data, n));
    FlatChunks(c[..n], data, 0);
    assert Drop(data, 0) == data;
    FlatConcat(c[..n], c[n..]);
    assert c[..n] + c[n..] == c;
  }

  lemma {:induction false} FlatConcat(a: seq<Sector>, b: seq<Sector>)
    ensures Flat(a + b) == Flat(a) + Flat(b)
  {
    if a == [] {
      assert a + b == b;
    } else {
      assert (a + b)[1..] == a[1..] + b;
      FlatConcat(a[1..], b);
    }
  }

  /** `xcfs_write` touches only the file's own sectors, and reading back any number of its bytes returns them. */
  lemma WriteLaw(v: Vol, norm: string, data: seq<Byte>)
    requires VolOk(v) && Exact(v)
    ensures var (v', ok) := WriteOn(v, norm, data);
            && VolOk(v') && Exact(v') && TableOf(v') == TableOf(v)
            && (Synced(v) ==> Synced(v'))
            && (!ok ==> v' == v)
    ensures var (v', ok) := WriteOn(v, norm, data);
            ok ==>
              && Find(TableOf(v), norm).Some?
              && (var e := TableOf(v)[Find(TableOf(v), norm).value]; DataKept(v, v', e.start, SectorsOf(e.size)))
              && OnDisk(TableOf(v'), |v'.disk|)
              && forall n: nat :: n <= |data| ==> ReadOn(v', norm, n) == Some(data[..n])
  {
    var (v', ok) := WriteOn(v, norm, data);
    if ok {
      var u := Find(TableOf(v), norm).value;
      Writable(v, u);
      assert v.ents[u] == TableOf(v)[u];
      hide SectorsOf, Find, Shape, Extents, Exact, Synced, DataKept, SaveEntries, WriteSectors, OnDisk, Content, Flat;
      WriteSlot(v, u, data);
      ExtentsOnDisk(v');
      forall n: nat | n <= |data|
        ensures ReadOn(v', norm, n) == Some(data[..n])
      {
        ReadBack(v', norm, u, data, n);
      }
    }
  }

  lemma Writable(v: Vol, u: nat)
    requires VolOk(v) && u < v.hdr.count
    ensures v.ents[u].size <= 0xFFFF_FE00
  {
    assert Honest(v.ents[u]);
    HonestIff(v.ents[u].size);
  }

  lemma ReadBack(v: Vol, norm: string, u: nat, data: seq<Byte>, n: nat)
    requires v.hdr.count <= |v.ents| && OnDisk(TableOf(v), |v.disk|)
    requires Find(TableOf(v), norm) == Some(u) && TableOf(v)[u].kind == FILE && n <= |data| <= TableOf(v)[u].size
    requires data <= Flat(Content(TableOf(v)[u], v.disk))
    ensures ReadOn(v, norm, n) == Some(data[..n])
  {
    hide SectorsOf, Find, Flat, Content;
    var bytes := Flat(Content(TableOf(v)[u], v.disk));
    assert bytes[..|data|] == data && bytes[..n] == data[..n];
  }

  /** The write itself, on slot `u`. */
  lemma WriteSlot(v: Vol, u: nat, data: seq<Byte>)
    requires VolOk(v) && Exact(v) && u < v.hdr.count && IsFile(v.ents[u])
    requires |data| <= v.ents[u].size <= 0xFFFF_FE00
    ensures var e := v.ents[u];
            var v1 := v.(disk := WriteSectors(v.disk, e.start, data, SectorsOf(|data|)));
            var v' := SaveEntries(v1, u, u + 1);
            && VolOk(v') && Exact(v') && TableOf(v') == TableOf(v) && (Synced(v) ==> Synced(v'))
            && DataKept(v, v', e.start, SectorsOf(e.size))
            && e.start + SectorsOf(e.size) <= |v'.disk|
            && data <= Flat(Content(e, v'.disk))
  {
    var e := v.ents[u];
    var n := SectorsOf(|data|);
    SectorsMonotone(|data|, e.size);
    hide SectorsOf, Flat, Honest;
    assert e == TableOf(v)[u];
    var v1 := v.(disk := WriteSectors(v.disk, e.start, data, n));
    SavedEntry(v, v1, u);
    WrittenContent(v.disk, e, data, n);
    var v' := SaveEntries(v1, u, u + 1);
    assert Content(e, v'.disk) == Content(e, v1.disk);
  }

  lemma SavedEntry(v: Vol, v1: Vol, u: nat)
    requires VolOk(v) && Exact(v) && Shape(v1) && v1 == v.(disk := v1.disk) && u < v.hdr.count
    requires |v1.disk| == |v.disk| && forall x :: 0 <= x < v.lay.dataStart ==> v1.disk[x] == v.disk[x]
    ensures var v' := SaveEntries(v1, u, u + 1);
            VolOk(v') && Exact(v') && TableOf(v') == TableOf(v) && DataKept(v1, v', 0, 0) && (Synced(v) ==> Synced(v'))
  {
    hide SectorsOf, Honest;
    var v' := SaveEntries(v1, u, u + 1);
    if Synced(v) {
      forall i | 0 <= i < v.hdr.count
        ensures SlotSynced(v', i)
      {
        assert SlotSynced(v, i);
      }
      BitsStay(v, v');
    }
  }

  // ---------------------------------------------------------------- where the bitmap has to be

  /** A volume of that layout and size whose bitmap sectors are on the disk. */
  predicate HasBitmap(v: Vol, lay: Layout, total: nat) {
    && v.lay == lay && v.hdr.total == total <= |v.disk| && |v.bits| == 4096 * BitmapSectors(total)
    && BitmapStart(lay) + BitmapSectors(total) <= |v.disk|
  }

  /** Saving the bitmap leaves every sector of the data area as it is, whatever is on the disk. */
  ghost predicate SaveKeepsData(lay: Layout, total: nat) {
    forall v: Vol, x :: HasBitmap(v, lay, total) && lay.dataStart <= x < total ==> SaveBitmap(v).disk[x] == v.disk[x]
  }

  /** The bitmap sectors lie in front of the data area, or behind the volume, or there is no data area. */
  predicate BitmapApart(lay: Layout, total: nat) {
    BitmapStart(lay) + BitmapSectors(total) <= lay.dataStart || total <= BitmapStart(lay) || total <= lay.dataStart
  }

  /** A volume full of zeros. */
  function ZeroVolume(lay: Layout, total: nat): Vol {
    Vol(lay, Header(MAGIC, VERSION, total, 1), [], seq(4096 * BitmapSectors(total), _ => false),
        seq(total + BitmapStart(lay) + BitmapSectors(total), _ => Zeros()))
  }

  /** Saving the bitmap leaves the data area alone exactly when its sectors are apart from it. */
  lemma SaveKeepsDataIff(lay: Layout, total: nat)
    ensures SaveKeepsData(lay, total) <==> BitmapApart(lay, total)
  {
    if !BitmapApart(lay, total) {
      var v := ZeroVolume(lay, total);
      var x := if lay.dataStart <= BitmapStart(lay) then BitmapStart(lay) else lay.dataStart;
      assert HasBitmap(v, lay, total) && |v.bits| / 4096 == BitmapSectors(total);
      var n := BitmapSectors(total);
      assert BitmapStart(lay) <= x < BitmapStart(lay) + n && lay.dataStart <= x < total <= |v.disk|;
      assert SaveBitmap(v).disk[x] == BitmapSlice(v.bits, x - BitmapStart(lay));
      assert v.disk[x] == Zeros();
    }
  }

  /** With bitmap and data on the volume that is when the bitmap ends where the data area starts, or before. */
  lemma SaveKeepsDataInside(lay: Layout, total: nat)
    requires lay.dataStart < total && BitmapStart(lay) + BitmapSectors(total) <= total
    ensures SaveKeepsData(lay, total) <==> BitmapStart(lay) + BitmapSectors(total) <= lay.dataStart
  {
    SaveKeepsDataIff(lay, total);
  }

  // ---------------------------------------------------------------- the shipped layout

  /** The layout of config.cfg: header at 8224, 1024 table slots, data from 9248 on. */
  const SHIPPED: Layout := Layout(8224, 1024, 9248)

  /** On the shipped layout saving the bitmap keeps the data area only on volumes that end in front of the bitmap. */
  lemma ShippedBitmapHitsData(total: nat)
    ensures SaveKeepsData(SHIPPED, total) <==> total <= 9249
    ensures total > 9249 ==> !Fits(SHIPPED, total)
  {
    SaveKeepsDataIff(SHIPPED, total);
  }
}
