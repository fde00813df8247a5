/** What `xcfs_delete` keeps, and exactly when. */
module XcfsDelete {
  import opened XcfsTypes
  import opened XcfsCompact
  import opened XcfsContent
  import opened XcfsTree
  import opened XcfsVolume
  import opened XcfsLaws

  /** The table when the compaction is over; deleting a directory moves nothing. */
  function Compact(t: Table, u: nat): (r: Table)
    requires u < |t|
    ensures |r| == |t|
  {
    if t[u].kind != DIR then Stage(t, GapAt(t, u), |t|) else t
  }

  /** Deleting a directory, or a file in a table where compaction moves no file onto a waiting one. */
  ghost predicate SafeDelete(t: Table, u: nat)
    requires u < |t|
  {
    t[u].kind != DIR ==> Safe(t, GapAt(t, u))
  }

  // ---------------------------------------------------------------- taking the slot out

  lemma RemovedOwners(t: Table, u: nat, x: nat)
    requires u < |t|
    ensures OwnedBut(Removed(t, u), -1, x) <==> OwnedBut(t, u, x)
  {
    hide SectorsOf, Removed;
    var r := Removed(t, u);
    if OwnedBut(r, -1, x) {
      var i :| 0 <= i < |r| && i != -1 && IsFile(r[i]) && InExtent(r[i], x);
      RemovedSource(t, u, i);
      var k := Source(t, u, i);
      assert IsFile(t[k]) && InExtent(t[k], x);
    }
    if OwnedBut(t, u, x) {
      var k :| 0 <= k < |t| && k != u && IsFile(t[k]) && InExtent(t[k], x);
      var i := if k == |t| - 1 then u else k;
      RemovedSource(t, u, i);
      assert IsFile(r[i]) && InExtent(r[i], x);
    }
  }

  lemma RemovedApart(t: Table, u: nat, lo: nat, hi: nat)
    requires u < |t| && AllApart(t, u) && AllWithin(t, lo, hi)
    ensures AllApart(Removed(t, u), -1) && AllWithin(Removed(t, u), lo, hi)
  {
    hide SectorsOf, Removed;
    var r := Removed(t, u);
    forall i: nat | i < |r|
      ensures r[i].start == t[Source(t, u, i)].start && r[i].size == t[Source(t, u, i)].size
              && r[i].kind == t[Source(t, u, i)].kind
    {
      RemovedSource(t, u, i);
    }
    forall i, j | 0 <= i < j < |r| && i != -1 && j != -1 && IsFile(r[i]) && IsFile(r[j])
      ensures ExtentsApart(r[i], r[j])
    {
      var a, b := Source(t, u, i), Source(t, u, j);
      assert a != b;
      assert if a < b then ExtentsApart(t[a], t[b]) else ExtentsApart(t[b], t[a]);
    }
  }

  lemma DirectoryGone(t: Table, u: nat, x: nat)
    requires u < |t| && !IsFile(t[u])
    ensures OwnedBut(t, u, x) <==> OwnedBut(t, -1, x)
  {
  }

  lemma CompactApart(t: Table, u: nat, lo: nat, hi: nat)
    requires u < |t| && AllApart(t, -1) && AllWithin(t, lo, hi) && (t[u].kind == DIR || t[u].kind == FILE)
    ensures AllApart(Compact(t, u), u) && AllWithin(Compact(t, u), lo, hi)
  {
  }

  /** The table and bitmap of the volume without slot `u`. */
  lemma DeletedTable(v: Vol, u: nat)
    requires Framed(v) && u < v.hdr.count
    ensures var v' := DeleteSlot(v, u); var t := TableOf(v);
            && v'.hdr == v.hdr.(count := v.hdr.count - 1) && v'.lay == v.lay && |v'.ents| == |v.ents|
            && TableOf(v') == Removed(Compact(t, u), u)
            && (forall i :: v.hdr.count - 1 <= i < |v'.ents| ==> v'.ents[i] == BLANK)
            && v'.bits == (if t[u].kind != DIR then StageBits(v.bits, v.lay.dataStart, t, GapAt(t, u), |t|) else v.bits)
  {
    hide SectorsOf, Stage, StageBits, StageDisk, Removed, Honest;
    var t := TableOf(v);
    assert t[u] == v.ents[u];
    var v1 := if v.ents[u].kind != DIR then Compacted(v, u) else v;
    assert TableOf(v1) == Compact(t, u);
    assert TableOf(DropSlot(v1, u)) == Removed(Compact(t, u), u);
    assert DropSlot(v1, u).ents[v.hdr.count - 1] == BLANK;
    assert TableOf(DeleteSlot(v, u)) == TableOf(DropSlot(v1, u));
  }

  /** The disk of the volume without slot `u`: the data area is the compacted one. */
  lemma DeletedDisk(v: Vol, u: nat)
    requires VolOk(v) && u < v.hdr.count && OnDisk(TableOf(v), |v.disk|)
    ensures var v' := DeleteSlot(v, u); var t := TableOf(v);
            && |v'.disk| == |v.disk|
            && forall x :: v.lay.dataStart <= x < |v.disk| ==>
                 v'.disk[x] == (if t[u].kind != DIR then StageDisk(v.disk, t, GapAt(t, u), |t|)[x] else v.disk[x])
  {
    hide SectorsOf, Stage, StageBits, StageDisk, Removed, Honest;
    assert TableOf(v)[u] == v.ents[u];
  }

  // ---------------------------------------------------------------- coherence

  lemma {:induction false} StageDiskIsData(disk: seq<Sector>, t: Table, g: Gap, lo: nat, hi: nat, k: nat, x: nat)
    requires GapOf(t, g, lo, hi) && hi <= |disk| && OnDisk(t, |disk|) && k <= |t| && lo <= x < hi
    requires forall y :: lo <= y < hi ==> disk[y].Data? && |disk[y].bytes| == 512
    ensures var s := StageDisk(disk, t, g, k)[x]; s.Data? && |s.bytes| == 512
    decreases k
  {
    hide SectorsOf;
    if k > 0 {
      StageDiskIsData(disk, t, g, lo, hi, k - 1, x);
      if Moves(t, g, k - 1) {
        var a := Shifted(t, g, k - 1).start;
        var n := SectorsOf(t[k - 1].size);
        if a <= x < a + n {
          BesideGap(t, g, lo, hi, k - 1);
          StageDiskIsData(disk, t, g, lo, hi, k - 1, t[k - 1].start + (x - a));
        }
      }
    }
  }

  lemma DeletedEntry(v: Vol, u: nat, i: nat)
    requires VolOk(v) && u < v.hdr.count && i < v.hdr.count - 1
    ensures var t := TableOf(v); var k := Source(t, u, i); var e := Removed(Compact(t, u), u)[i];
            && e.path == t[k].path && e.size == t[k].size && e.kind == t[k].kind && e.flags == t[k].flags
            && e.start == Compact(t, u)[k].start && t[k] == v.ents[k] && k < v.hdr.count
  {
    hide SectorsOf, Removed;
    RemovedSource(Compact(TableOf(v), u), u, i);
  }

  /** Whatever the order of the table, the volume without the entry has its extents apart and in place. */
  lemma DeleteKeepsOk(v: Vol, u: nat)
    requires VolOk(v) && 0 < u < v.hdr.count && OnDisk(TableOf(v), |v.disk|)
    ensures VolOk(DeleteSlot(v, u))
  {
    var v', t := DeleteSlot(v, u), TableOf(v);
    DeletedTable(v, u);
    DeletedDisk(v, u);
    CompactApart(t, u, v.lay.dataStart, v.hdr.total);
    RemovedApart(Compact(t, u), u, v.lay.dataStart, v.hdr.total);
    forall i | 0 <= i < v'.hdr.count
      ensures (v'.ents[i].kind == FILE || v'.ents[i].kind == DIR) && Honest(v'.ents[i])
    {
      DeletedEntry(v, u, i);
      assert v'.ents[i] == TableOf(v')[i];
      assert Honest(v.ents[Source(t, u, i)]);
    }
    forall x | v.lay.dataStart <= x < v.hdr.total
      ensures v'.disk[x].Data? && |v'.disk[x].bytes| == 512
    {
      if t[u].kind == FILE {
        StageDiskIsData(v.disk, t, GapAt(t, u), v.lay.dataStart, v.hdr.total, |t|, x);
      }
    }
    hide DeleteSlot, SectorsOf, Compact, Removed, Honest;
  }

  lemma RemovedExact(bits: seq<bool>, t: Table, u: nat, lo: nat)
    requires u < |t|
    ensures BitsExact(bits, Removed(t, u), -1, lo) <==> BitsExact(bits, t, u, lo)
  {
    forall x: nat
      ensures OwnedBut(Removed(t, u), -1, x) <==> OwnedBut(t, u, x)
    {
      RemovedOwners(t, u, x);
    }
  }

  lemma DirectoryExact(bits: seq<bool>, t: Table, u: nat, lo: nat)
    requires u < |t| && !IsFile(t[u])
    ensures BitsExact(bits, t, u, lo) <==> BitsExact(bits, t, -1, lo)
  {
    forall x: nat
      ensures OwnedBut(t, u, x) <==> OwnedBut(t, -1, x)
    {
      DirectoryGone(t, u, x);
    }
  }

  /** After a deletion the bitmap marks exactly the sectors of the files that are left if and only if it was safe. */
  lemma DeleteKeepsExactIff(v: Vol, u: nat)
    requires VolOk(v) && Exact(v) && u < v.hdr.count && OnDisk(TableOf(v), |v.disk|)
    ensures v.hdr.count - 1 <= |DeleteSlot(v, u).ents|
    ensures Exact(DeleteSlot(v, u)) <==> SafeDelete(TableOf(v), u)
  {
    var t, lo := TableOf(v), v.lay.dataStart;
    DeletedTable(v, u);
    hide DeleteSlot, SectorsOf, Stage, StageBits, Removed, Safe, Honest, BitsExact;
    RemovedExact(DeleteSlot(v, u).bits, Compact(t, u), u, lo);
    if t[u].kind != DIR {
      BitsExactIff(v.bits, t, GapAt(t, u), lo, v.hdr.total);
    } else {
      DirectoryExact(v.bits, t, u, lo);
    }
  }

  // ---------------------------------------------------------------- contents

  /** After a safe deletion every file that is left reads back the same sectors. */
  lemma DeleteKeepsContent(v: Vol, u: nat, i: nat)
    requires VolOk(v) && 0 < u < v.hdr.count && OnDisk(TableOf(v), |v.disk|) && SafeDelete(TableOf(v), u)
    requires i < v.hdr.count - 1 && IsFile(v.ents[Source(TableOf(v), u, i)])
    ensures var v' := DeleteSlot(v, u); var e := v.ents[Source(TableOf(v), u, i)];
            && i < |v'.ents| && v'.ents[i].path == e.path && v'.ents[i].size == e.size
            && v'.ents[i].start + SectorsOf(e.size) <= |v'.disk| && e.start + SectorsOf(e.size) <= |v.disk|
            && Content(v'.ents[i], v'.disk) == Content(e, v.disk)
  {
    var v', t := DeleteSlot(v, u), TableOf(v);
    var k := Source(t, u, i);
    assert t[k] == v.ents[k] && k < v.hdr.count;
    hide DeleteSlot, SectorsOf, Stage, StageDisk, StageBits, Removed, Safe, Honest, Shape, Extents, Content, Compact;
    hide OnDisk, VolOk, SafeDelete, Source;
    DeletedFile(v, u, i);
    CompactKeepsFile(v, u, k);
    DeletedDisk(v, u);
    SameContent(v'.ents[i], Compact(t, u)[k], v'.disk, CompactDisk(v, u), v.lay.dataStart);
  }

  /** Where the entry of slot `i` came from. */
  lemma DeletedFile(v: Vol, u: nat, i: nat)
    requires VolOk(v) && u < v.hdr.count && i < v.hdr.count - 1 && OnDisk(TableOf(v), |v.disk|)
    ensures var v', t := DeleteSlot(v, u), TableOf(v); var k := Source(t, u, i);
            && i < |v'.ents| && v'.ents[i].path == t[k].path && v'.ents[i].size == t[k].size
            && v'.ents[i].start == Compact(t, u)[k].start
  {
    assert Framed(v);
    hide DeleteSlot, SectorsOf, Stage, StageBits, Removed, Shape, Extents, Compact, Framed, OnDisk;
    DeletedTable(v, u);
    DeletedEntry(v, u, i);
    assert DeleteSlot(v, u).ents[i] == TableOf(DeleteSlot(v, u))[i];
  }

  /** The disk after the compaction; deleting a directory moves nothing. */
  function CompactDisk(v: Vol, u: nat): seq<Sector>
    requires u < v.hdr.count <= |v.ents| && OnDisk(TableOf(v), |v.disk|)
  {
    var t := TableOf(v);
    if t[u].kind != DIR then StageDisk(v.disk, t, GapAt(t, u), |t|) else v.disk
  }

  lemma CompactKeepsFile(v: Vol, u: nat, k: nat)
    requires VolOk(v) && u < v.hdr.count && OnDisk(TableOf(v), |v.disk|) && SafeDelete(TableOf(v), u)
    requires k < v.hdr.count && k != u && IsFile(TableOf(v)[k])
    ensures var c := Compact(TableOf(v), u)[k]; var e := TableOf(v)[k];
            && v.lay.dataStart <= c.start && c.start + SectorsOf(c.size) <= |v.disk| == |CompactDisk(v, u)|
            && c.size == e.size && e.start + SectorsOf(e.size) <= |v.disk|
            && Content(c, CompactDisk(v, u)) == Content(e, v.disk)
  {
    var t := TableOf(v);
    CompactApart(t, u, v.lay.dataStart, v.hdr.total);
    hide SectorsOf, Stage, StageDisk, Safe, Honest, Content;
    var c := Compact(t, u)[k];
    assert v.lay.dataStart <= c.start && c.start + SectorsOf(c.size) <= v.hdr.total;
    if t[u].kind != DIR {
      SafeKeeps(v.disk, t, GapAt(t, u), v.lay.dataStart, v.hdr.total, |t|, k);
    }
  }

  /** Content depends only on where the extent is and on the data sectors. */
  lemma SameContent(a: Entry, b: Entry, da: seq<Sector>, db: seq<Sector>, lo: nat)
    requires a.start == b.start && a.size == b.size && lo <= a.start && a.start + SectorsOf(a.size) <= |da| == |db|
    requires forall x :: lo <= x < |da| ==> da[x] == db[x]
    ensures Content(a, da) == Content(b, db)
  {
  }

  // ---------------------------------------------------------------- the tree

  lemma CompactTree(t: Table, u: nat)
    requires u < |t| && TreeOk(t)
    ensures TreeOk(Compact(t, u)) && forall i :: 0 <= i < |t| ==> Compact(t, u)[i].parent == t[i].parent
    ensures HasChild(Compact(t, u), u) <==> HasChild(t, u)
  {
    hide SectorsOf, Dirname;
    var c := Compact(t, u);
    assert forall i :: 0 <= i < |t| ==> c[i].path == t[i].path && c[i].parent == t[i].parent && c[i].kind == t[i].kind;
    forall i | 1 <= i < |t|
      ensures ParentOk(c, i)
    {
      assert ParentOk(t, i);
    }
    if HasChild(t, u) {
      var i :| 0 <= i < |t| && i != u && t[i].parent == u;
      assert c[i].parent == u;
    }
  }

  /** Whatever the extents are, deleting keeps the tree exactly when no entry has the deleted one as its parent. */
  lemma DeleteKeepsTreeIff(v: Vol, u: nat)
    requires Framed(v) && 0 < u < v.hdr.count && TreeOk(TableOf(v))
    ensures var v' := DeleteSlot(v, u);
            v'.hdr.count <= |v'.ents| && (TreeOk(TableOf(v')) <==> !HasChild(TableOf(v), u))
  {
    DeletedTable(v, u);
    CompactTree(TableOf(v), u);
    RemoveKeepsTreeIff(Compact(TableOf(v), u), u);
  }

  /** `xcfs_delete` itself looks for children of directories only, so a directory it deletes leaves a tree. */
  lemma DeletedDirectoryLeavesTree(v: Vol, norm: string)
    requires VolOk(v) && TreeOk(TableOf(v)) && DeleteOn(v, norm).1
    requires v.ents[Doomed(v, norm).value].kind == DIR
    ensures var v' := DeleteOn(v, norm).0; v'.hdr.count <= |v'.ents| && TreeOk(TableOf(v'))
  {
    ExtentsOnDisk(v);
    var u := Doomed(v, norm).value;
    assert TableOf(v)[0].path == "/";
    DeleteKeepsTreeIff(v, u);
  }

  // ---------------------------------------------------------------- agreement with the disk

  /** Slot `i` holds no file that moves, and no child of the last entry. */
  predicate Untouched(t: Table, u: nat, i: nat)
    requires u < |t| && i < |t|
  {
    !(t[u].kind != DIR && Moves(t, GapAt(t, u), i)) && !(u != |t| - 1 && t[i].parent == |t| - 1)
  }

  /** No slot in front of `u` changes. */
  ghost predicate FrontUntouched(t: Table, u: nat)
    requires u < |t|
  {
    forall i :: 0 <= i < u ==> Untouched(t, u, i)
  }

  lemma FrontSlot(t: Table, u: nat, i: nat, lo: nat, hi: nat)
    requires u < |t| && i < u && AllApart(t, -1) && AllWithin(t, lo, hi) && (t[u].kind == DIR || t[u].kind == FILE)
    ensures i < |t| - 1
    ensures Removed(Compact(t, u), u)[i] == t[i] <==> Untouched(t, u, i)
  {
  }

  /** What every save needs to find the sectors it writes. */
  predicate Saveable(w: Vol) {
    && Fits(w.lay, w.hdr.total) && w.hdr.total <= |w.disk| && |w.ents| == w.lay.maxFiles
    && |w.bits| == 4096 * BitmapSectors(w.hdr.total)
  }

  lemma EntriesSaved(w: Vol, from: nat, to: nat)
    requires Saveable(w) && from <= to <= w.lay.maxFiles
    ensures var v2 := SaveEntries(SaveHeader(w), from, to);
            && Saveable(v2) && v2.disk[w.lay.meta] == HeaderSector(w.hdr)
            && (forall i :: from <= i < to ==> SlotSynced(v2, i))
            && (forall i :: 0 <= i < from ==> SlotSector(v2, i) == SlotSector(w, i))
            && (BitsSynced(w) ==> BitsSynced(v2))
  {
    var v2 := SaveEntries(SaveHeader(w), from, to);
    if BitsSynced(w) {
      forall i | 0 <= i < BitmapSectors(w.hdr.total)
        ensures BitmapSynced(v2, i)
      {
        assert BitmapSynced(w, i);
      }
    }
  }

  lemma BitmapWritten(w: Vol)
    requires Saveable(w)
    ensures var v2 := SaveBitmap(w);
            && Saveable(v2) && v2.disk[w.lay.meta] == w.disk[w.lay.meta] && BitsSynced(v2)
            && (forall i :: 0 <= i < |w.ents| && SlotSynced(w, i) ==> SlotSynced(v2, i))
            && forall i :: 0 <= i < |w.ents| ==> SlotSector(v2, i) == SlotSector(w, i)
  {
  }

  lemma CompactedFront(v: Vol, u: nat)
    requires VolOk(v) && u < v.hdr.count && OnDisk(TableOf(v), |v.disk|) && v.ents[u].kind != DIR
    ensures forall x :: 0 <= x < v.lay.dataStart ==> Compacted(v, u).disk[x] == v.disk[x]
  {
    hide SectorsOf, Stage, StageBits, StageDisk, Honest;
    forall x | 0 <= x < v.lay.dataStart
      ensures Compacted(v, u).disk[x] == v.disk[x]
    {
      FrontKept(v.disk, TableOf(v), GapAt(TableOf(v), u), v.lay.dataStart, v.hdr.total, v.hdr.count, x);
    }
  }

  /** The cache and disk just before the saves. */
  function Unsaved(v: Vol, u: nat): Vol
    requires u < v.hdr.count <= |v.ents| && OnDisk(TableOf(v), |v.disk|)
  {
    DropSlot(if v.ents[u].kind != DIR then Compacted(v, u) else v, u)
  }

  lemma BeforeSaves(v: Vol, u: nat)
    requires VolOk(v) && u < v.hdr.count && OnDisk(TableOf(v), |v.disk|) && Synced(v)
    ensures var w := Unsaved(v, u);
            && Saveable(w) && w.lay == v.lay && |w.disk| == |v.disk| && w.hdr == v.hdr.(count := v.hdr.count - 1)
            && (forall i :: 0 <= i < u ==> SlotSector(w, i) == SlotSector(v, i))
            && (v.ents[u].kind == DIR ==> BitsSynced(w))
  {
    UnsavedFront(v, u);
    hide Unsaved, Extents, BitsSynced, SlotsSynced;
    SizesStay(v, Unsaved(v, u));
    if v.ents[u].kind == DIR {
      BitsStay(v, Unsaved(v, u));
    }
  }

  lemma SizesStay(v: Vol, w: Vol)
    requires Shape(v) && w.lay == v.lay && |w.disk| == |v.disk| && |w.ents| == |v.ents| && |w.bits| == |v.bits|
    requires w.hdr.total == v.hdr.total && forall x :: 0 <= x < v.lay.dataStart ==> w.disk[x] == v.disk[x]
    ensures Saveable(w) && forall i :: 0 <= i < |v.ents| ==> SlotSector(w, i) == SlotSector(v, i)
  {
  }

  /** Sizes, and the sectors in front of the data area, are those from before. */
  lemma UnsavedFront(v: Vol, u: nat)
    requires VolOk(v) && u < v.hdr.count && OnDisk(TableOf(v), |v.disk|)
    ensures var w := Unsaved(v, u);
            && w.lay == v.lay && |w.disk| == |v.disk| && |w.ents| == |v.ents| && |w.bits| == |v.bits|
            && w.hdr == v.hdr.(count := v.hdr.count - 1)
            && (forall x :: 0 <= x < v.lay.dataStart ==> w.disk[x] == v.disk[x])
            && (v.ents[u].kind == DIR ==> w.bits == v.bits)
  {
    if v.ents[u].kind != DIR {
      CompactedFront(v, u);
    }
    hide SectorsOf, Stage, StageBits, StageDisk, Removed, Honest, Extents;
  }

  lemma DeleteIsSaved(v: Vol, u: nat)
    requires Shape(v) && u < v.hdr.count && OnDisk(TableOf(v), |v.disk|)
    ensures v.hdr.count <= |Unsaved(v, u).ents|
    ensures DeleteSlot(v, u) == Saved(Unsaved(v, u), u, v.hdr.count, v.ents[u].kind == FILE)
    ensures v.ents[u].kind == FILE || v.ents[u].kind == DIR
  {
  }

  lemma DeleteSaves(v: Vol, u: nat)
    requires VolOk(v) && 0 < u < v.hdr.count && OnDisk(TableOf(v), |v.disk|) && Synced(v)
    ensures var v' := DeleteSlot(v, u);
            && VolOk(v') && v'.disk[v.lay.meta] == HeaderSector(v'.hdr) && BitsSynced(v')
            && (forall i :: u <= i < v'.hdr.count ==> SlotSynced(v', i))
            && forall i :: 0 <= i < u ==> SlotSector(v', i) == SlotSector(v, i)
  {
    DeleteKeepsOk(v, u);
    hide DeleteSlot, Unsaved, Extents, BitsSynced, SlotSynced, SlotSector, Saved;
    BeforeSaves(v, u);
    DeleteIsSaved(v, u);
    SavesAll(Unsaved(v, u), u, v.hdr.count, v.ents[u].kind == FILE);
  }

  function Saved(w: Vol, from: nat, to: nat, bitmap: bool): Vol
    requires to <= |w.ents|
  {
    var v2 := SaveEntries(SaveHeader(w), from, to);
    if bitmap then SaveBitmap(v2) else v2
  }

  lemma SavesAll(w: Vol, from: nat, to: nat, bitmap: bool)
    requires Saveable(w) && from <= to <= w.lay.maxFiles && (bitmap || BitsSynced(w))
    ensures var v' := Saved(w, from, to, bitmap);
            && v'.lay == w.lay && v'.hdr == w.hdr && v'.ents == w.ents
            && Saveable(v') && v'.disk[w.lay.meta] == HeaderSector(w.hdr) && BitsSynced(v')
            && (forall i :: from <= i < to ==> SlotSynced(v', i))
            && forall i :: 0 <= i < from ==> SlotSector(v', i) == SlotSector(w, i)
  {
    hide BitsSynced;
    EntriesSaved(w, from, to);
    BitmapWritten(SaveEntries(SaveHeader(w), from, to));
  }

  lemma SlotsInFront(v: Vol, u: nat)
    requires VolOk(v) && 0 < u < v.hdr.count && OnDisk(TableOf(v), |v.disk|) && Synced(v)
    ensures VolOk(DeleteSlot(v, u))
    ensures forall i :: 0 <= i < u ==> SlotSector(DeleteSlot(v, u), i) == EntrySector(v.ents[i])
  {
    DeleteSaves(v, u);
    hide DeleteSlot, Extents;
    forall i | 0 <= i < u
      ensures SlotSector(DeleteSlot(v, u), i) == EntrySector(v.ents[i])
    {
      assert SlotSynced(v, i);
    }
  }

  /** A slot in front of the deleted one is on the disk as cached exactly when it did not change. */
  lemma FrontSlotSynced(v: Vol, u: nat, i: nat)
    requires VolOk(v) && 0 < u < v.hdr.count && OnDisk(TableOf(v), |v.disk|) && Synced(v) && i < u
    ensures VolOk(DeleteSlot(v, u)) && i < |DeleteSlot(v, u).ents|
    ensures SlotSynced(DeleteSlot(v, u), i) <==> Untouched(TableOf(v), u, i)
  {
    var v', t := DeleteSlot(v, u), TableOf(v);
    SlotsInFront(v, u);
    DeletedTable(v, u);
    FrontSlot(t, u, i, v.lay.dataStart, v.hdr.total);
    hide DeleteSlot, SectorsOf, Compact, Removed, Honest, Shape, Extents, Untouched;
    assert v'.ents[i] == TableOf(v')[i];
  }

  /**
   After a deletion cache and disk agree, and a remount sees the volume as it is, exactly when no
   slot in front of the deleted one changed.
   */
  lemma DeleteKeepsSyncedIff(v: Vol, u: nat)
    requires VolOk(v) && 0 < u < v.hdr.count && OnDisk(TableOf(v), |v.disk|) && Synced(v)
    ensures VolOk(DeleteSlot(v, u))
    ensures Synced(DeleteSlot(v, u)) <==> FrontUntouched(TableOf(v), u)
    ensures var w := DeleteSlot(v, u);
            && w.disk[w.lay.meta] == HeaderSector(w.hdr)
            && (Load(w.lay, w.disk) == w <==> FrontUntouched(TableOf(v), u))
  {
    DeleteSaves(v, u);
    DeletedTable(v, u);
    hide DeleteSlot, Compact, Removed, Extents, Untouched, BitsSynced, Load;
    forall i | 0 <= i < u
      ensures SlotSynced(DeleteSlot(v, u), i) <==> Untouched(TableOf(v), u, i)
    {
      FrontSlotSynced(v, u, i);
    }
    LoadRebuildsIff(DeleteSlot(v, u));
  }

  /** Files in ascending order and children behind their parents: then a deletion touches no slot in front. */
  lemma OrderedFrontUntouched(t: Table, u: nat)
    requires u < |t| && Ascending(t) && (t[u].kind == DIR || t[u].kind == FILE)
    requires forall i :: 0 < i < |t| ==> t[i].parent < i
    requires t[0].parent == 0
    ensures FrontUntouched(t, u)
  {
  }

  // ---------------------------------------------------------------- holes

  /** Deleting from a volume without holes leaves one without holes. */
  lemma DeleteKeepsHoleFree(v: Vol, u: nat)
    requires VolOk(v) && u < v.hdr.count && OnDisk(TableOf(v), |v.disk|) && HoleFree(TableOf(v), -1, v.lay.dataStart)
    ensures var v' := DeleteSlot(v, u);
            v'.hdr.count <= |v'.ents| && HoleFree(TableOf(v'), -1, v.lay.dataStart)
  {
    var v', t := DeleteSlot(v, u), TableOf(v);
    DeletedTable(v, u);
    var lo := v.lay.dataStart;
    hide DeleteSlot, SectorsOf, Stage, Removed, Honest;
    if t[u].kind != DIR {
      StaysHoleFree(t, GapAt(t, u), lo, v.hdr.total);
    }
    forall x: nat | x > lo && OwnedBut(TableOf(v'), -1, x)
      ensures OwnedBut(TableOf(v'), -1, x - 1)
    {
      RemovedOwners(Compact(t, u), u, x);
      RemovedOwners(Compact(t, u), u, x - 1);
      if t[u].kind == DIR {
        DirectoryGone(t, u, x);
        DirectoryGone(t, u, x - 1);
      }
    }
  }
}
