/** What a successful `inject` keeps and achieves, over every sequence of calls. */
module InjectLaws {
  import opened XcfsTypes
  import opened XcfsTree
  import opened XcfsVolume
  import opened XcfsLaws
  import opened InjectVolume
  import opened Options
  import opened Paths

  /** The bytes of a file entry. */
  function EntryBytes(e: Entry, disk: seq<Sector>): Option<seq<Byte>> {
    if !IsFile(e) || e.start + Count(e.size) > |disk| then None
    else
      var b := Flat(disk[e.start..e.start + Count(e.size)]);
      Some(if e.size <= |b| then b[..e.size] else b)
  }

  /** The bytes of the file with that path. */
  function BytesAt(v: Vol, p: string): Option<seq<Byte>>
    requires v.hdr.count <= |v.ents|
  {
    match Find(TableOf(v), p)
    case None => None
    case Some(i) => EntryBytes(TableOf(v)[i], v.disk)
  }

  /** `v'` is `v` with `data` put into the file `e` of slot `i`, on sectors that are its own. */
  ghost predicate Puts(v: Vol, v': Vol, i: nat, e: Entry, data: seq<Byte>)
    requires v.hdr.count <= |v.ents|
  {
    && i <= v.hdr.count && v'.lay == v.lay
    && v'.hdr == v.hdr.(count := if i == v.hdr.count then i + 1 else v.hdr.count)
    && |v'.ents| == v'.hdr.count && |v'.disk| == |v.disk| && |v'.bits| == |v.bits|
    && v'.ents[i] == e && (forall j :: 0 <= j < v.hdr.count && j != i ==> v'.ents[j] == v.ents[j])
    && IsFile(e) && e.size == |data| && (i == 0 ==> e.path == "/") && (i < v.hdr.count ==> e.path == v.ents[i].path)
    && v.lay.dataStart <= e.start && e.start + Count(e.size) <= v.hdr.total
    && (forall x :: v.lay.dataStart <= x < |v.disk| ==>
        v'.disk[x] == WriteSectors(v.disk, e.start, data, Count(e.size))[x])
    && (forall j :: 0 <= j < v.hdr.count && j != i ==> v.ents[j].path != e.path)
    && (forall j :: 0 <= j < v.hdr.count && j != i && IsFile(v.ents[j]) ==> Beside(v.ents[j], e))
    && (forall x :: Within(e, x) ==> Marked(v', x))
    && (forall j :: 0 <= j < v.hdr.count && j != i && IsFile(v.ents[j]) ==> Placed(v', v.ents[j]))
  }

  lemma PutsHealthy(v: Vol, v': Vol, i: nat, e: Entry, data: seq<Byte>)
    requires Healthy(v) && Puts(v, v', i, e, data) && v'.hdr.count <= v.lay.maxFiles
    ensures Healthy(v')
  {
    hide Count, WriteSectors, Marked;
    forall x | v.lay.dataStart <= x < v.hdr.total
      ensures v'.disk[x].Data? && |v'.disk[x].bytes| == 512
    {
    }
    forall a, b | 0 <= a < b < v'.hdr.count
      ensures v'.ents[a].path != v'.ents[b].path
      ensures IsFile(v'.ents[a]) && IsFile(v'.ents[b]) ==> Beside(v'.ents[a], v'.ents[b])
    {
      if a != i && b != i {
        assert TableOf(v)[a].path != TableOf(v)[b].path;
        assert v'.ents[a] == v.ents[a] && v'.ents[b] == v.ents[b];
      }
    }
  }

  lemma PutsFind(v: Vol, v': Vol, i: nat, e: Entry, data: seq<Byte>, p: string)
    requires Healthy(v) && Healthy(v') && Puts(v, v', i, e, data)
    ensures Find(TableOf(v'), p) == if p == e.path then Some(i) else Find(TableOf(v), p)
  {
    hide Count, WriteSectors, Marked, Find, Beside, Placed, Within;
    var t, t' := TableOf(v), TableOf(v');
    if p == e.path {
      FindUnique(t', i);
    } else if Find(t, p).Some? {
      var j := Find(t, p).value;
      assert t[j] == v.ents[j];
      FindUnique(t', j);
    }
  }

  /** The sectors of the file spell the data. */
  lemma PutsStretch(v: Vol, v': Vol, i: nat, e: Entry, data: seq<Byte>)
    requires v.hdr.count <= |v.ents| && v.hdr.total <= |v.disk| && Puts(v, v', i, e, data)
    ensures data <= Flat(v'.disk[e.start..e.start + Count(e.size)])
  {
    hide Chunk, Flat, Count, Beside, Placed, Within, Marked;
    var n := Count(e.size);
    var c := v'.disk[e.start..e.start + n];
    forall k | 0 <= k < |c|
      ensures c[k] == Chunk(data, 0 + k)
    {
      assert c[k] == v'.disk[e.start + k];
    }
    hide Puts;
    FlatChunks(c, data, 0);
    assert Drop(data, 0) == data;
  }

  lemma EntryHolds(e: Entry, disk: seq<Sector>, data: seq<Byte>)
    requires IsFile(e) && e.size == |data| && e.start + Count(e.size) <= |disk|
    requires data <= Flat(disk[e.start..e.start + Count(e.size)])
    ensures EntryBytes(e, disk) == Some(data)
  {
    hide Count, Flat;
    assert Flat(disk[e.start..e.start + Count(e.size)])[..|data|] == data;
  }

  lemma PutsBytes(v: Vol, v': Vol, i: nat, e: Entry, data: seq<Byte>)
    requires Healthy(v) && Healthy(v') && Puts(v, v', i, e, data)
    ensures BytesAt(v', e.path) == Some(data)
  {
    PutsFind(v, v', i, e, data, e.path);
    PutsStretch(v, v', i, e, data);
    assert TableOf(v')[i] == e && e.size == |data| && e.start + Count(e.size) <= |v'.disk| && IsFile(e);
    hide Find, Count, Healthy, Puts, Flat, WriteSectors, IsFile, EntryBytes;
    EntryHolds(e, v'.disk, data);
  }

  lemma PutsOthers(v: Vol, v': Vol, i: nat, e: Entry, data: seq<Byte>, p: string)
    requires Healthy(v) && Healthy(v') && Puts(v, v', i, e, data) && p != e.path
    ensures BytesAt(v', p) == BytesAt(v, p)
  {
    PutsFind(v, v', i, e, data, p);
    var t := TableOf(v);
    hide Find, Count, Flat, EntryBytes, Within, WriteSectors;
    if Find(t, p).Some? {
      var j := Find(t, p).value;
      assert j != i && TableOf(v')[j] == t[j] && t[j] == v.ents[j];
      OtherEntry(v, v', i, e, data, j);
    }
  }

  lemma OtherEntry(v: Vol, v': Vol, i: nat, e: Entry, data: seq<Byte>, j: nat)
    requires Healthy(v) && Puts(v, v', i, e, data) && j < v.hdr.count && j != i
    ensures EntryBytes(v.ents[j], v'.disk) == EntryBytes(v.ents[j], v.disk)
  {
    hide Count, Flat, Within, WriteSectors;
    var f := v.ents[j];
    if IsFile(f) {
      assert Placed(v, f) && Beside(f, e);
      SameStretch(v, v', f.start, Count(f.size), e, data);
    }
  }

  lemma SameStretch(v: Vol, v': Vol, start: nat, n: nat, e: Entry, data: seq<Byte>)
    requires |v'.disk| == |v.disk| && v.lay.dataStart <= start && start + n <= |v.disk|
    requires start + n <= e.start || e.start + Count(e.size) <= start
    requires forall x :: v.lay.dataStart <= x < |v.disk| ==>
               v'.disk[x] == WriteSectors(v.disk, e.start, data, Count(e.size))[x]
    ensures v'.disk[start..start + n] == v.disk[start..start + n]
  {
  }

  // ---------------------------------------------------------------- the three ways to put

  lemma InPlacePuts(v: Vol, i: nat, data: seq<Byte>, flags: nat)
    requires Healthy(v) && i < v.hdr.count && IsFile(v.ents[i]) && Count(|data|) <= Count(v.ents[i].size)
    ensures var e := v.ents[i].(size := |data|, flags := NewFlags(v.ents[i].flags, flags));
            Puts(v, InPlace(v, i, data, flags), i, e, data)
  {
    var e := v.ents[i].(size := |data|, flags := NewFlags(v.ents[i].flags, flags));
    var v' := InPlace(v, i, data, flags);
    hide Count, NewFlags, WriteSectors;
    forall j | 0 <= j < v.hdr.count && j != i
      ensures v.ents[j].path != e.path
      ensures IsFile(v.ents[j]) ==> Beside(v.ents[j], e) && Placed(v', v.ents[j])
    {
      assert TableOf(v)[j].path != TableOf(v)[i].path;
      assert IsFile(v.ents[j]) ==> if j < i then Beside(v.ents[j], v.ents[i]) else Beside(v.ents[i], v.ents[j]);
      assert IsFile(v.ents[j]) ==> Placed(v, v.ents[j]);
    }
    forall x | Within(e, x)
      ensures Marked(v', x)
    {
      assert Within(v.ents[i], x) && Placed(v, v.ents[i]);
    }
  }

  /** A run of clear bits lies beside every file. */
  lemma FreeIsBeside(v: Vol, start: nat, size: nat, j: nat)
    requires Healthy(v) && FreeRun(v, Count(size)) == Some(start) && j < v.hdr.count && IsFile(v.ents[j])
    ensures Beside(v.ents[j], BLANK.(start := start, size := size))
    ensures v.lay.dataStart <= start && start + Count(size) <= v.hdr.total
  {
    hide Count;
    var f := v.ents[j];
    assert Placed(v, f);
    assert Within(f, f.start) && Marked(v, f.start);
    assert Within(f, start) ==> Marked(v, start);
  }

  /** Marking sectors for a new extent, and clearing those of a file beside all others. */
  lemma MarksKeep(v: Vol, v': Vol, f: Entry, a: nat, n: nat, b: nat, m: nat)
    requires v'.lay == v.lay && Placed(v, f) && v'.hdr == v.hdr.(count := v'.hdr.count)
    requires v'.bits == Mark(Mark(v.bits, v.lay.dataStart, a, n, true), v.lay.dataStart, b, m, false)
    requires f.start + Count(f.size) <= b || b + m <= f.start
    ensures Placed(v', f)
  {
  }

  lemma RelocatedPuts(v: Vol, i: nat, start: nat, data: seq<Byte>, flags: nat)
    requires Healthy(v) && i < v.hdr.count && IsFile(v.ents[i]) && FreeRun(v, Count(|data|)) == Some(start)
    ensures var e := v.ents[i].(start := start, size := |data|, flags := NewFlags(v.ents[i].flags, flags));
            Puts(v, Relocated(v, i, start, data, flags), i, e, data)
  {
    var old' := v.ents[i];
    var e := old'.(start := start, size := |data|, flags := NewFlags(old'.flags, flags));
    var v' := Relocated(v, i, start, data, flags);
    FreeIsBeside(v, start, |data|, i);
    hide Count, NewFlags, WriteSectors, FreeRun;
    forall j | 0 <= j < v.hdr.count && j != i
      ensures v.ents[j].path != e.path
      ensures IsFile(v.ents[j]) ==> Beside(v.ents[j], e) && Placed(v', v.ents[j])
    {
      assert TableOf(v)[j].path != TableOf(v)[i].path;
      if IsFile(v.ents[j]) {
        FreeIsBeside(v, start, |data|, j);
        assert if j < i then Beside(v.ents[j], old') else Beside(old', v.ents[j]);
        MarksKeep(v, v', v.ents[j], start, Count(|data|), old'.start, Count(old'.size));
      }
    }
    RelocatedMarks(v, v', old', e);
  }

  lemma RelocatedMarks(v: Vol, v': Vol, old': Entry, e: Entry)
    requires Shaped(v) && v'.lay == v.lay && Beside(old', e) && e.start + Count(e.size) <= v.hdr.total
    requires v'.bits == Mark(Mark(v.bits, v.lay.dataStart, e.start, Count(e.size), true),
                             v.lay.dataStart, old'.start, Count(old'.size), false)
    ensures forall x :: Within(e, x) ==> Marked(v', x)
  {
  }

  lemma AppendedPuts(v: Vol, norm: string, par: nat, start: nat, data: seq<Byte>, flags: nat)
    requires Healthy(v) && Find(TableOf(v), norm).None? && FreeRun(v, Count(|data|)) == Some(start)
    requires v.hdr.count == 0 ==> norm == "/"
    requires v.lay.dataStart <= start && start + Count(|data|) <= v.hdr.total
    ensures var e := Entry(norm, start, |data|, par, FILE,
                           flags - (if HasFlag(flags, PROTECTED) then PROTECTED else 0));
            Puts(v, Appended(v, norm, par, start, data, flags), v.hdr.count, e, data)
  {
    var e := Entry(norm, start, |data|, par, FILE, flags - (if HasFlag(flags, PROTECTED) then PROTECTED else 0));
    var v' := Appended(v, norm, par, start, data, flags);
    AppendedDisk(v, norm, par, start, data, flags);
    FreshMarks(v', e);
    assert v'.ents == TableOf(v) + [e];
    hide Appended, Count, WriteSectors, FreeRun, HasFlag, SaveBitmap, SaveHeader, SaveEntries;
    forall j | 0 <= j < v.hdr.count
      ensures v.ents[j].path != e.path
      ensures IsFile(v.ents[j]) ==> Beside(v.ents[j], e) && Placed(v', v.ents[j])
    {
      assert TableOf(v)[j] == v.ents[j];
      if IsFile(v.ents[j]) {
        FreeIsBeside(v, start, |data|, j);
        MarkKeeps(v, v', v.ents[j], start, Count(|data|));
      }
    }
    hide Placed, Beside;
  }

  lemma AppendedDisk(v: Vol, norm: string, par: nat, start: nat, data: seq<Byte>, flags: nat)
    requires Shaped(v)
    ensures var v' := Appended(v, norm, par, start, data, flags); var n := Count(|data|);
            && v'.lay == v.lay && v'.hdr == v.hdr.(count := v.hdr.count + 1)
            && v'.bits == Mark(v.bits, v.lay.dataStart, start, n, true) && |v'.disk| == |v.disk|
            && forall x :: v.lay.dataStart <= x < |v.disk| ==> v'.disk[x] == WriteSectors(v.disk, start, data, n)[x]
  {
  }

  lemma FreshMarks(v: Vol, e: Entry)
    requires exists bits: seq<bool> :: v.bits == Mark(bits, v.lay.dataStart, e.start, Count(e.size), true)
    requires v.lay.dataStart <= e.start && e.start + Count(e.size) - v.lay.dataStart <= |v.bits|
    ensures forall x :: Within(e, x) ==> Marked(v, x)
  {
  }

  lemma MarkKeeps(v: Vol, v': Vol, f: Entry, a: nat, n: nat)
    requires v'.lay == v.lay && Placed(v, f) && v'.hdr == v.hdr.(count := v'.hdr.count)
    requires v'.bits == Mark(v.bits, v.lay.dataStart, a, n, true)
    ensures Placed(v', f)
  {
  }

  // ---------------------------------------------------------------- agreement with the image file

  lemma SaveSlotStores(v: Vol, w: Vol, i: nat)
    requires Shaped(v) && Stored(v) && i < |w.ents| <= v.lay.maxFiles && w.lay == v.lay && |w.disk| == |v.disk|
    requires forall x :: 0 <= x < v.lay.dataStart ==> w.disk[x] == v.disk[x]
    requires forall j :: 0 <= j < |w.ents| && j != i ==> j < |v.ents| && w.ents[j] == v.ents[j]
    ensures var s := SaveEntries(w, i, i + 1);
            && s.lay == v.lay && |s.disk| == |v.disk| && s.ents == w.ents && s.bits == w.bits && s.hdr == w.hdr
            && s.lay.meta + 1 + |s.ents| <= |s.disk| && SlotsSynced(s, |s.ents|)
            && s.disk[v.lay.meta] == v.disk[v.lay.meta]
            && forall x :: v.lay.meta + 1 + v.lay.maxFiles <= x < |v.disk| ==> s.disk[x] == w.disk[x]
  {
    var s := SaveEntries(w, i, i + 1);
    forall j | 0 <= j < |s.ents|
      ensures SlotSynced(s, j)
    {
      if j != i {
        assert w.ents[j] == v.ents[j];
        assert SlotSynced(v, j);
      }
    }
  }

  lemma SaveBitsStores(w: Vol, total: nat)
    requires Fits(w.lay, total) && w.hdr.total == total <= |w.disk| && |w.bits| == 4096 * BitmapSectors(total)
    requires |w.ents| <= w.lay.maxFiles && SlotsSynced(w, |w.ents|)
    ensures var s := SaveBitmap(w);
            && BitsSynced(s) && SlotsSynced(s, |s.ents|)
            && s.disk[w.lay.meta] == w.disk[w.lay.meta] && |s.disk| == |w.disk|
  {
    var s := SaveBitmap(w);
    forall j | 0 <= j < |s.ents|
      ensures SlotSynced(s, j)
    {
      assert SlotSynced(w, j);
    }
  }

  lemma SaveHeaderStores(w: Vol)
    requires w.lay.meta < |w.disk| && w.hdr.total <= |w.disk|
    requires |w.ents| <= w.lay.maxFiles && w.lay.meta + 1 + |w.ents| <= |w.disk| && SlotsSynced(w, |w.ents|)
    ensures var s := SaveHeader(w); HeaderStored(s) && SlotsSynced(s, |s.ents|)
  {
    var s := SaveHeader(w);
    forall j | 0 <= j < |s.ents|
      ensures SlotSynced(s, j)
    {
      assert SlotSynced(w, j);
    }
  }

  lemma InPlaceStored(v: Vol, i: nat, data: seq<Byte>, flags: nat)
    requires Healthy(v) && Stored(v) && i < v.hdr.count && IsFile(v.ents[i])
    requires Shaped(InPlace(v, i, data, flags))
    ensures Stored(InPlace(v, i, data, flags))
  {
    var e := v.ents[i];
    var e' := e.(size := |data|, flags := NewFlags(e.flags, flags));
    var w := v.(disk := WriteSectors(v.disk, e.start, data, Count(|data|)), ents := v.ents[i := e']);
    assert Placed(v, e);
    SaveSlotStores(v, w, i);
    hide SaveEntries, Count, NewFlags;
    var s := InPlace(v, i, data, flags);
    forall k | 0 <= k < BitmapSectors(v.hdr.total)
      ensures BitmapSynced(s, k)
    {
      assert BitmapSynced(v, k);
    }
  }

  lemma RelocatedStored(v: Vol, i: nat, start: nat, data: seq<Byte>, flags: nat)
    requires Healthy(v) && Stored(v) && i < v.hdr.count && v.lay.dataStart <= start
    requires Shaped(Relocated(v, i, start, data, flags))
    ensures Stored(Relocated(v, i, start, data, flags))
  {
    var e, n := v.ents[i], Count(|data|);
    var e' := e.(start := start, size := |data|, flags := NewFlags(e.flags, flags));
    var w := v.(
      bits := Mark(Mark(v.bits, v.lay.dataStart, start, n, true), v.lay.dataStart, e.start, Count(e.size), false),
      disk := WriteSectors(v.disk, start, data, n),
      ents := v.ents[i := e']);
    SaveSlotStores(v, w, i);
    hide SaveEntries, Count, NewFlags, Mark, WriteSectors, SlotsSynced, BitsSynced;
    SaveBitsStores(SaveEntries(w, i, i + 1), v.hdr.total);
  }

  lemma AppendedStored(v: Vol, norm: string, par: nat, start: nat, data: seq<Byte>, flags: nat)
    requires Healthy(v) && Stored(v) && v.hdr.count < v.lay.maxFiles && v.lay.dataStart <= start
    requires Shaped(Appended(v, norm, par, start, data, flags))
    ensures Stored(Appended(v, norm, par, start, data, flags))
  {
    var n := Count(|data|);
    var e := Entry(norm, start, |data|, par, FILE, flags - (if HasFlag(flags, PROTECTED) then PROTECTED else 0));
    var w := v.(
      bits := Mark(v.bits, v.lay.dataStart, start, n, true),
      disk := WriteSectors(v.disk, start, data, n),
      ents := TableOf(v) + [e],
      hdr := v.hdr.(count := v.hdr.count + 1));
    assert Appended(v, norm, par, start, data, flags)
        == SaveBitmap(SaveHeader(SaveEntries(w, v.hdr.count, v.hdr.count + 1)));
    hide Appended, Count, Mark, WriteSectors, HasFlag, Passes, Disjoint, SaveEntries, SaveHeader, SaveBitmap;
    hide BitsSynced, SlotsSynced;
    NewSlotStored(v, w);
  }

  lemma NewSlotStored(v: Vol, w: Vol)
    requires Shaped(v) && Stored(v) && v.hdr.count < v.lay.maxFiles
    requires w.lay == v.lay && |w.disk| == |v.disk| && w.hdr == v.hdr.(count := v.hdr.count + 1) && |w.bits| == |v.bits|
    requires |w.ents| == v.hdr.count + 1 && forall j :: 0 <= j < v.hdr.count ==> w.ents[j] == v.ents[j]
    requires forall x :: 0 <= x < v.lay.dataStart ==> w.disk[x] == v.disk[x]
    ensures var r := SaveBitmap(SaveHeader(SaveEntries(w, v.hdr.count, v.hdr.count + 1)));
            && r.lay == w.lay && r.ents == w.ents && r.bits == w.bits && r.hdr == w.hdr && |r.disk| == |w.disk|
            && HeaderStored(r) && SlotsSynced(r, |r.ents|) && BitsSynced(r)
  {
    hide BitsSynced, SlotsSynced, SaveEntries;
    SaveSlotStores(v, w, v.hdr.count);
    var s := SaveEntries(w, v.hdr.count, v.hdr.count + 1);
    assert Fits(s.lay, s.hdr.total) && s.hdr.total <= |s.disk| && |s.bits| == 4096 * BitmapSectors(s.hdr.total);
    HeaderAndBitsStored(s);
  }

  lemma HeaderAndBitsStored(s: Vol)
    requires Fits(s.lay, s.hdr.total) && s.hdr.total <= |s.disk| && |s.bits| == 4096 * BitmapSectors(s.hdr.total)
    requires |s.ents| <= s.lay.maxFiles && SlotsSynced(s, |s.ents|)
    ensures var r := SaveBitmap(SaveHeader(s));
            && r.lay == s.lay && r.ents == s.ents && r.bits == s.bits && r.hdr == s.hdr && |r.disk| == |s.disk|
            && HeaderStored(r) && SlotsSynced(r, |r.ents|) && BitsSynced(r)
  {
    hide SlotsSynced, BitsSynced;
    SaveHeaderStores(s);
    SaveBitsStores(SaveHeader(s), s.hdr.total);
  }

  // ---------------------------------------------------------------- one call

  lemma OverwriteLaw(v: Vol, i: nat, data: seq<Byte>, flags: nat, p: string)
    requires Healthy(v) && i < v.hdr.count && OverwriteOn(v, i, data, flags).Some?
    ensures var v' := OverwriteOn(v, i, data, flags).value; var q := v.ents[i].path;
            && Healthy(v') && BytesAt(v', q) == Some(data) && (p != q ==> BytesAt(v', p) == BytesAt(v, p))
            && v'.lay == v.lay && (Stored(v) ==> Stored(v'))
  {
    var v' := OverwriteOn(v, i, data, flags).value;
    var e := v.ents[i];
    hide InPlace, Relocated, Count, FreeRun, Healthy, BytesAt, Puts, NewFlags, Stored, HasFlag;
    var inPlace := Count(|data|) <= Count(e.size);
    var start := if inPlace then e.start else FreeRun(v, Count(|data|)).value;
    var e' := e.(start := start, size := |data|, flags := NewFlags(e.flags, flags));
    if inPlace {
      InPlacePuts(v, i, data, flags);
    } else {
      RelocatedPuts(v, i, start, data, flags);
    }
    PutLaw(v, v', i, e', data, p);
    if Stored(v) {
      if inPlace {
        InPlaceStored(v, i, data, flags);
      } else {
        FreeIsInside(v, Count(|data|));
        RelocatedStored(v, i, start, data, flags);
      }
    }
  }

  lemma FreeIsInside(v: Vol, n: nat)
    requires v.lay.dataStart <= v.hdr.total && v.hdr.total - v.lay.dataStart <= |v.bits| && FreeRun(v, n).Some?
    ensures var s := FreeRun(v, n).value; v.lay.dataStart <= s && s + n <= v.hdr.total
  {
  }

  lemma PutLaw(v: Vol, v': Vol, i: nat, e: Entry, data: seq<Byte>, p: string)
    requires Healthy(v) && Puts(v, v', i, e, data) && v'.hdr.count <= v.lay.maxFiles
    ensures Healthy(v') && BytesAt(v', e.path) == Some(data) && (p != e.path ==> BytesAt(v', p) == BytesAt(v, p))
    ensures v'.lay == v.lay
  {
    PutsHealthy(v, v', i, e, data);
    PutsBytes(v, v', i, e, data);
    if p != e.path {
      PutsOthers(v, v', i, e, data, p);
    }
  }

  lemma CreateFileLaw(v: Vol, norm: string, data: seq<Byte>, flags: nat, p: string)
    requires Healthy(v) && Find(TableOf(v), norm).None? && norm != "" && CreateFileOn(v, norm, data, flags).Some?
    ensures var v' := CreateFileOn(v, norm, data, flags).value;
            && Healthy(v') && BytesAt(v', norm) == Some(data) && (p != norm ==> BytesAt(v', p) == BytesAt(v, p))
            && v'.lay == v.lay && (Stored(v) ==> Stored(v'))
  {
    var v' := CreateFileOn(v, norm, data, flags).value;
    var n := Count(|data|);
    var par, start := ParentOf(v, norm).value, FreeRun(v, n).value;
    assert v.hdr.count == 0 ==> norm == "/";
    FreeIsInside(v, n);
    hide Appended, Count, FreeRun, Healthy, BytesAt, Puts, Stored, HasFlag, ParentOf, Find;
    AppendedPuts(v, norm, par, start, data, flags);
    var e := Entry(norm, start, |data|, par, FILE, flags - (if HasFlag(flags, PROTECTED) then PROTECTED else 0));
    PutLaw(v, v', v.hdr.count, e, data, p);
    if Stored(v) {
      AppendedStored(v, norm, par, start, data, flags);
    }
  }

  /**
   A successful `inject` keeps the image healthy, puts exactly the host bytes at the normalised path,
   leaves the bytes at every other path, and leaves the image file in agreement with the cache.
   */
  lemma InjectLaw(v: Vol, path: string, data: seq<Byte>, flags: nat, p: string)
    requires Healthy(v) && InjectOn(v, path, data, flags).Some?
    ensures var v' := InjectOn(v, path, data, flags).value;
            && Healthy(v') && BytesAt(v', Norm(path)) == Some(data)
            && (p != Norm(path) ==> BytesAt(v', p) == BytesAt(v, p))
            && v'.lay == v.lay && (Stored(v) ==> Stored(v'))
  {
    var norm := Norm(path);
    hide OverwriteOn, CreateFileOn, BytesAt, Stored;
    match Find(TableOf(v), norm)
    case Some(i) =>
      assert v.ents[i].path == norm;
      OverwriteLaw(v, i, data, flags, p);
    case None => CreateFileLaw(v, norm, data, flags, p);
  }

  // ---------------------------------------------------------------- the entry it leaves

  /** A successful `inject` keeps the tree of a volume: the parent it records is the directory the path lies in. */
  lemma InjectKeepsTree(v: Vol, path: string, data: seq<Byte>, flags: nat)
    requires Healthy(v) && TreeOk(TableOf(v)) && InjectOn(v, path, data, flags).Some?
    ensures var v' := InjectOn(v, path, data, flags).value; v'.hdr.count <= |v'.ents| && TreeOk(TableOf(v'))
  {
    var t, norm := TableOf(v), Norm(path);
    match Find(t, norm)
    case Some(i) =>
      OverwriteEntry(v, i, data, flags);
      SameTree(t, TableOf(OverwriteOn(v, i, data, flags).value), i);
    case None =>
      var v' := CreateFileOn(v, norm, data, flags).value;
      var e := v'.ents[v.hdr.count];
      assert TableOf(v') == t + [e];
      assert t[0].path == "/" && norm != "/";
      AddKeepsTreeIff(t, e);
  }

  /** Overwriting changes no path, kind or parent, and leaves no entry protected that was not. */
  lemma OverwriteEntry(v: Vol, i: nat, data: seq<Byte>, flags: nat)
    requires Healthy(v) && i < v.hdr.count && OverwriteOn(v, i, data, flags).Some?
    ensures var v' := OverwriteOn(v, i, data, flags).value;
            && v'.hdr == v.hdr && |v'.ents| == |v.ents|
            && (forall j :: 0 <= j < |v.ents| && j != i ==> v'.ents[j] == v.ents[j])
            && v'.ents[i].path == v.ents[i].path && v'.ents[i].kind == v.ents[i].kind
            && v'.ents[i].parent == v.ents[i].parent
            && v'.ents[i].size == |data| && !HasFlag(v'.ents[i].flags, PROTECTED)
            && v'.ents[i].flags % 4 == (if flags == 0 then v.ents[i].flags else flags) % 4
            && v'.ents[i].flags / 8 == (if flags == 0 then v.ents[i].flags else flags) / 8
  {
    NewFlagsKeep(v.ents[i].flags, flags);
    hide Count, FreeRun, Healthy, HasFlag, NewFlags, Mark, WriteSectors;
  }

  /** The new flags are the ones given, or the old ones, without the protected flag. */
  lemma NewFlagsKeep(old': nat, flags: nat)
    ensures !HasFlag(old', PROTECTED) ==> !HasFlag(NewFlags(old', flags), PROTECTED)
    ensures NewFlags(old', flags) % 4 == (if flags == 0 then old' else flags) % 4
    ensures NewFlags(old', flags) / 8 == (if flags == 0 then old' else flags) / 8
  {
  }

  lemma SameTree(t: Table, t': Table, i: nat)
    requires TreeOk(t) && |t'| == |t| && i < |t| && forall j :: 0 <= j < |t| && j != i ==> t'[j] == t[j]
    requires t'[i].path == t[i].path && t'[i].kind == t[i].kind && t'[i].parent == t[i].parent
    ensures TreeOk(t')
  {
    hide Dirname;
    forall j | 1 <= j < |t'|
      ensures ParentOk(t', j)
    {
      assert ParentOk(t, j);
    }
  }

  // ---------------------------------------------------------------- every sequence of calls

  datatype Job = Job(path: string, data: seq<Byte>, flags: nat)

  /**
   One start of the script: load, `check`, inject; the image file afterwards, or nothing if it ended
   early, as it does here also on an image whose sectors are not of the kinds the layout calls for.
   */
  ghost function Session(lay: Layout, disk: seq<Sector>, job: Job): Option<seq<Sector>> {
    match LoadOn(lay, disk)
    case None => None
    case Some(v) =>
      if !Shaped(v) || !Passes(v) then None
      else
        match InjectOn(v, job.path, job.data, job.flags)
        case None => None
        case Some(w) => Some(w.disk)
  }

  /** One start after the other on the same image. */
  ghost function Sessions(lay: Layout, disk: seq<Sector>, jobs: seq<Job>): Option<seq<Sector>>
    decreases |jobs|
  {
    if jobs == [] then Some(disk)
    else
      match Session(lay, disk, jobs[0])
      case None => None
      case Some(next) => Sessions(lay, next, jobs[1..])
  }

  /** The bytes that belong at a path after the jobs: those of the last job for it, or the ones from before. */
  function Expected(jobs: seq<Job>, p: string, before: Option<seq<Byte>>): Option<seq<Byte>>
    decreases |jobs|
  {
    if jobs == [] then before
    else Expected(jobs[1..], p, if Norm(jobs[0].path) == p then Some(jobs[0].data) else before)
  }

  /**
   Every sequence of successful starts, in place or relocating or creating, leaves an image that loads,
   passes `check`, has disjoint files, and holds at every path the bytes last injected there.
   */
  lemma {:induction false} SessionsLaw(v: Vol, jobs: seq<Job>, p: string)
    requires Healthy(v) && Stored(v) && Sessions(v.lay, v.disk, jobs).Some?
    ensures var w := LoadOn(v.lay, Sessions(v.lay, v.disk, jobs).value);
            w.Some? && Healthy(w.value) && BytesAt(w.value, p) == Expected(jobs, p, BytesAt(v, p))
    decreases |jobs|
  {
    LoadRestores(v);
    if jobs != [] {
      var job := jobs[0];
      var v' := InjectOn(v, job.path, job.data, job.flags).value;
      InjectLaw(v, job.path, job.data, job.flags, p);
      hide InjectOn, LoadOn, Shaped, Passes, Disjoint, Stored, BytesAt;
      SessionsLaw(v', jobs[1..], p);
    }
  }

  // ---------------------------------------------------------------- starts that end early

  /** The image file after one start, which changes nothing when it ends early. */
  ghost function Started(lay: Layout, disk: seq<Sector>, job: Job): seq<Sector> {
    match Session(lay, disk, job)
    case None => disk
    case Some(next) => next
  }

  ghost function AllStarted(lay: Layout, disk: seq<Sector>, jobs: seq<Job>): seq<Sector>
    decreases |jobs|
  {
    if jobs == [] then disk else AllStarted(lay, Started(lay, disk, jobs[0]), jobs[1..])
  }

  /** The bytes that belong at a path: those of the last job for it that went through. */
  ghost function Landed(lay: Layout, disk: seq<Sector>, jobs: seq<Job>, p: string, before: Option<seq<Byte>>)
    : Option<seq<Byte>>
    decreases |jobs|
  {
    if jobs == [] then before
    else
      var hit := Session(lay, disk, jobs[0]).Some? && Norm(jobs[0].path) == p;
      Landed(lay, Started(lay, disk, jobs[0]), jobs[1..], p, if hit then Some(jobs[0].data) else before)
  }

  /** One start on a healthy image, whether it goes through or ends early. */
  lemma StartLaw(v: Vol, job: Job, p: string) returns (w: Vol)
    requires Healthy(v) && Stored(v)
    ensures Healthy(w) && Stored(w) && w.lay == v.lay && w.disk == Started(v.lay, v.disk, job)
    ensures BytesAt(w, p)
            == if Session(v.lay, v.disk, job).Some? && Norm(job.path) == p then Some(job.data) else BytesAt(v, p)
  {
    LoadRestores(v);
    hide LoadOn, Stored, BytesAt, InjectOn;
    w := v;
    if InjectOn(v, job.path, job.data, job.flags).Some? {
      w := InjectOn(v, job.path, job.data, job.flags).value;
      InjectLaw(v, job.path, job.data, job.flags, p);
    }
  }

  /**
   Every sequence of starts on a healthy image, those that end early among them, leaves an image that loads,
   passes `check`, has disjoint files, and holds at every path the bytes of the last job that went through.
   */
  lemma {:induction false} StartsLaw(v: Vol, jobs: seq<Job>, p: string)
    requires Healthy(v) && Stored(v)
    ensures var w := LoadOn(v.lay, AllStarted(v.lay, v.disk, jobs));
            w.Some? && Healthy(w.value) && BytesAt(w.value, p) == Landed(v.lay, v.disk, jobs, p, BytesAt(v, p))
    decreases |jobs|
  {
    LoadRestores(v);
    if jobs != [] {
      hide Session, Started, LoadOn, Shaped, Passes, Disjoint, Stored, BytesAt;
      var w := StartLaw(v, jobs[0], p);
      StartsLaw(w, jobs[1..], p);
    }
  }
}
