/** src/drivers/fs/xcfs.c as it updates its globals and the disk step by step. */
module Xcfs {
  import opened XcfsTypes
  import opened XcfsCompact
  import opened XcfsContent
  import opened XcfsTree
  import opened XcfsVolume
  import opened XcfsLaws
  import opened Paths
  import opened Options

  /** What `xcfs_readdir` reports of an entry. */
  datatype Dirent = Dirent(name: string, kind: nat, flags: nat, size: nat)

  /** A name as the 256 bytes of a directory record hold it. */
  function Cut(name: string): string {
    if |name| <= 255 then name else name[..255]
  }

  function DirentOf(e: Entry): Dirent {
    Dirent(Cut(Basename(e.path)), e.kind, e.flags, e.size)
  }

  function AtMost(s: seq<nat>, max: nat): seq<nat> {
    if |s| <= max then s else s[..max]
  }

  function Dirents(t: Table, slots: seq<nat>): seq<Dirent>
    requires forall k :: 0 <= k < |slots| ==> slots[k] < |t|
  {
    seq(|slots|, k requires 0 <= k < |slots| => DirentOf(t[slots[k]]))
  }

  /** What `xcfs_readdir` writes for slot `d`: the entries whose parent it is, in table order, at most `max`. */
  function Listing(t: Table, d: nat, max: nat): seq<Dirent> {
    Dirents(t, AtMost(Slots(t, d, 0), max))
  }

  function ReaddirOf(t: Table, norm: string, max: nat): Option<seq<Dirent>> {
    match Find(t, norm)
    case None => None
    case Some(d) => if t[d].kind != DIR then None else Some(Listing(t, d, max))
  }

  /** A listing has a record for each slot listed, the first `max` of them, with the name cut to 255 characters. */
  lemma ListingIs(t: Table, d: nat, max: nat)
    ensures var slots, out := Slots(t, d, 0), Listing(t, d, max);
            && |out| == (if |slots| < max then |slots| else max)
            && forall k :: 0 <= k < |out| ==>
              var e, name := t[slots[k]], Basename(t[slots[k]].path);
              && out[k].kind == e.kind && out[k].flags == e.flags && out[k].size == e.size
              && out[k].name <= name && |out[k].name| == if |name| < 255 then |name| else 255
  {
  }

  /** There is a listing exactly of a path whose first entry is a directory. */
  lemma ReaddirIff(t: Table, norm: string, max: nat)
    ensures ReaddirOf(t, norm, max).Some?
            <==> exists d: nat :: && d < |t| && t[d].path == norm && t[d].kind == 2
                                  && forall i :: 0 <= i < d ==> t[i].path != norm
    ensures ReaddirOf(t, norm, max).Some? ==>
              exists d: nat :: d < |t| && t[d].path == norm && ReaddirOf(t, norm, max) == Some(Listing(t, d, max))
  {
    hide Listing;
    match Find(t, norm)
    case None =>
    case Some(u) =>
      assert t[u].path == norm;
      if d: nat :| d < |t| && t[d].path == norm && forall i :: 0 <= i < d ==> t[i].path != norm {
        assert d == u;
      }
  }

  class Driver {
    const lay: Layout
    var initialized: bool
    var cwd: string
    var hdr: Header
    var ents: seq<Entry>
    var bits: seq<bool>
    var disk: seq<Sector>

    function State(): Vol
      reads this
    {
      Vol(lay, hdr, ents, bits, disk)
    }

    constructor (lay: Layout, disk: seq<Sector>)
      ensures this.lay == lay && this.disk == disk && !initialized && cwd == "/"
    {
      this.lay, this.disk := lay, disk;
      initialized, cwd := false, "/";
      hdr, ents, bits := Header(0, 0, 0, 0), [], [];
    }

    // -------------------------------------------------------------- lookup

    /** `fe`. */
    method FindPath(path: string) returns (r: Option<nat>)
      requires hdr.count <= |ents|
      ensures r == Find(TableOf(State()), path)
    {
      ghost var t := TableOf(State());
      assert t[0..] == t;
      var i := 0;
      while i < hdr.count
        invariant i <= hdr.count
        invariant Find(t, path) == match Find(t[i..], path) case None => None case Some(k) => Some(k + i)
      {
        assert t[i..][1..] == t[i + 1..];
        if ents[i].path == path { return Some(i); }
        i := i + 1;
      }
      return None;
    }

    /** `fp`. */
    method FindParentOf(p: string) returns (r: Option<nat>)
      requires hdr.count <= |ents|
      ensures r == FindParent(TableOf(State()), p)
      ensures p != "" && p != "/" && r.Some? ==> r.value < hdr.count && LiesIn(p, ents[r.value].path)
      ensures p != "" && p != "/" && r.None? ==> forall i :: 0 <= i < hdr.count ==> !LiesIn(p, ents[i].path)
    {
      if p == "" { return None; }
      if p == "/" { return Some(0); }
      var last := |p| - 1;
      while last > 0 && p[last] != '/'
        invariant 0 <= last < |p| && LastSlash(p, last) == LastSlash(p, |p| - 1)
      {
        last := last - 1;
      }
      r := FindPath(if last == 0 then "/" else p[..last]);
      assert forall i :: 0 <= i < hdr.count ==> TableOf(State())[i] == ents[i];
      hide LiesIn, Dirname, Find;
      FindParentLies(TableOf(State()), p);
    }

    // -------------------------------------------------------------- bitmap

    /** `bmp_mark`. */
    method MarkBits(s: nat, n: nat, v: bool)
      modifies this`bits
      ensures bits == Mark(old(bits), lay.dataStart, s, n, v)
    {
      ghost var bits0 := bits;
      var i := 0;
      while i < n
        invariant i <= n && |bits| == |bits0|
        invariant forall k :: 0 <= k < |bits| ==> bits[k] == if s <= lay.dataStart + k < s + i then v else bits0[k]
      {
        if s + i >= lay.dataStart && s + i - lay.dataStart < |bits| {
          bits := bits[s + i - lay.dataStart := v];
        }
        i := i + 1;
      }
    }

    /** `bmp_find`: count the current run of clear bits, and stop when it is long enough. */
    method FindRun(n: nat) returns (r: Option<nat>)
      requires n > 0 && lay.dataStart <= hdr.total && hdr.total - lay.dataStart <= |bits|
      ensures r == match FirstRun(bits, hdr.total - lay.dataStart, n, 0)
                   case None => None case Some(k) => Some(lay.dataStart + k)
    {
      var total := hdr.total - lay.dataStart;
      var run, start := 0, 0;
      var i := 0;
      while i < total
        invariant i <= total && run <= i && run < n
        invariant run > 0 ==> start == i - run
        invariant forall k :: i - run <= k < i ==> !bits[k]
        invariant forall s :: 0 <= s < i - run ==> !ClearRun(bits, s, n)
      {
        if !bits[i] {
          if run == 0 { start := i; }
          run := run + 1;
          if run >= n {
            assert ClearRun(bits, start, n);
            return Some(lay.dataStart + start);
          }
        } else {
          run := 0;
        }
        i := i + 1;
      }
      return None;
    }

    // -------------------------------------------------------------- saving

    method SaveHeaderSector()
      requires lay.meta < |disk|
      modifies this`disk
      ensures State() == SaveHeader(old(State()))
    {
      disk := disk[lay.meta := HeaderSector(hdr)];
    }

    /** `sv_ent_range`. */
    method SaveEntryRange(from: nat, to: nat)
      requires from <= to <= |ents| && lay.meta + 1 + to <= |disk|
      modifies this`disk
      ensures State() == SaveEntries(old(State()), from, to)
    {
      ghost var v := State();
      var base := lay.meta + 1;
      var s := from;
      while s < to
        invariant from <= s <= to && |disk| == |v.disk|
        invariant forall x :: 0 <= x < |disk| ==>
          disk[x] == if base + from <= x < base + s then EntrySector(ents[x - base]) else v.disk[x]
      {
        disk := disk[base + s := EntrySector(ents[s])];
        s := s + 1;
      }
      assert disk == SaveEntries(v, from, to).disk;
    }

    /** `sv_bmp`. */
    method SaveBitmapSectors()
      requires BitmapStart(lay) + |bits| / 4096 <= |disk|
      modifies this`disk
      ensures State() == SaveBitmap(old(State()))
    {
      ghost var v := State();
      var base := BitmapStart(lay);
      var i := 0;
      while i < |bits| / 4096
        invariant i <= |bits| / 4096 && |disk| == |v.disk|
        invariant forall x :: 0 <= x < |disk| ==>
          disk[x] == if base <= x < base + i then BitmapSlice(bits, x - base) else v.disk[x]
      {
        disk := disk[base + i := BitmapSlice(bits, i)];
        i := i + 1;
      }
      assert disk == SaveBitmap(v).disk;
    }

    // -------------------------------------------------------------- mounting

    method Format(total: nat)
      requires Mountable(lay, disk, total)
      modifies this
      ensures State() == FormatOn(lay, old(disk), total) && initialized && cwd == "/"
      ensures VolOk(State()) && Exact(State()) && Synced(State()) && TreeOk(TableOf(State()))
    {
      FormatLaw(lay, disk, total);
      hdr := Header(MAGIC, VERSION, total, 1);
      bits := seq(4096 * BitmapSectors(total), _ => false);
      ents := seq(lay.maxFiles, i => if i == 0 then Entry("/", 0, 0, 0, DIR, PROTECTED) else BLANK);
      initialized, cwd := true, "/";
      SaveHeaderSector();
      SaveEntryRange(0, 1);
      SaveBitmapSectors();
    }

    /** The table slots that the header counts, from the disk; all other slots are blank. */
    method LoadTable()
      requires lay.meta < |disk| && disk[lay.meta] == HeaderSector(hdr)
      requires lay.meta + 1 + lay.maxFiles + BitmapSectors(hdr.total) <= |disk|
      modifies this`ents
      ensures ents == Load(lay, disk).ents
    {
      ents := seq(lay.maxFiles, _ => BLANK);
      var n := if hdr.count > lay.maxFiles then lay.maxFiles else hdr.count;
      ghost var loaded := Load(lay, disk).ents;
      var i := 0;
      while i < n
        invariant i <= n && |ents| == lay.maxFiles
        invariant forall k :: 0 <= k < |ents| ==> ents[k] == if k < i then loaded[k] else BLANK
      {
        var e := disk[lay.meta + 1 + i];
        ents := ents[i := if e.EntrySector? then e.e else BLANK];
        i := i + 1;
      }
      assert ents == loaded;
    }

    /** The bitmap sectors in a row. */
    method LoadBitmap()
      requires BitmapStart(lay) + BitmapSectors(hdr.total) <= |disk|
      modifies this`bits
      ensures bits == LoadBits(disk, BitmapStart(lay), 0, BitmapSectors(hdr.total))
    {
      bits := [];
      var i, m := 0, BitmapSectors(hdr.total);
      while i < m
        invariant i <= m
        invariant bits + LoadBits(disk, BitmapStart(lay), i, m) == LoadBits(disk, BitmapStart(lay), 0, m)
      {
        var b := disk[BitmapStart(lay) + i];
        ghost var rest := LoadBits(disk, BitmapStart(lay), i + 1, m);
        var piece := if b.BitmapSector? then b.bits else [];
        assert bits + (piece + rest) == bits + piece + rest;
        bits := bits + piece;
        i := i + 1;
      }
      assert bits + [] == bits;
    }

    /** `xcfs_init` on a disk that holds a volume of this version, or else formats one of 131072 sectors. */
    method Init()
      requires lay.meta < |disk|
      requires var s := disk[lay.meta];
               if s.HeaderSector? && s.h.magic == MAGIC && s.h.version == VERSION
               then lay.meta + 1 + lay.maxFiles + BitmapSectors(s.h.total) <= |disk|
               else Mountable(lay, disk, 131072)
      modifies this
      ensures initialized && cwd == "/"
      ensures var s := old(disk)[lay.meta];
              State() == if s.HeaderSector? && s.h.magic == MAGIC && s.h.version == VERSION
                         then Load(lay, old(disk)) else FormatOn(lay, old(disk), 131072)
    {
      cwd := "/";
      var s := disk[lay.meta];
      if !(s.HeaderSector? && s.h.magic == MAGIC && s.h.version == VERSION) {
        Format(131072);
        return;
      }
      hdr := s.h;
      LoadTable();
      LoadBitmap();
      initialized := true;
    }

    // -------------------------------------------------------------- mkdir and create

    /** The checks in front of a new entry: room in the table, a new path, an existing parent. */
    method AdmitPath(norm: string) returns (r: Option<nat>)
      requires hdr.count <= |ents|
      ensures r == Admit(State(), norm)
    {
      hide Find, FindParent;
      if hdr.count >= lay.maxFiles { return None; }
      var found := FindPath(norm);
      if found.Some? { return None; }
      r := FindParentOf(norm);
    }

    /** The new entry goes behind the last one. */
    method AddSlot(e: Entry)
      requires hdr.count < |ents|
      modifies this`ents, this`hdr
      ensures State() == AddEntry(old(State()), e)
    {
      ents := ents[hdr.count := e];
      hdr := hdr.(count := hdr.count + 1);
    }

    /** `xcfs_mkdir` on a normalised path. */
    method MkdirAtPath(norm: string) returns (ok: bool)
      requires Shape(State())
      modifies this`hdr, this`ents, this`disk
      ensures (State(), ok) == MkdirOn(old(State()), norm)
    {
      ghost var v := State();
      Room(v);
      var par := AdmitPath(norm);
      if par.None? { return false; }
      hide Admit, Shape, AddEntry, SaveHeader, SaveEntries, TableOf;
      var idx := hdr.count;
      ghost var e := Entry(norm, 0, 0, par.value, DIR, 0);
      AddSlot(Entry(norm, 0, 0, par.value, DIR, 0));
      AddedShape(v, e);
      SaveHeaderSector();
      SavedShape(AddEntry(v, e));
      SaveEntryRange(idx, idx + 1);
      ok := true;
    }

    method Mkdir(path: string) returns (ok: bool)
      requires initialized ==> VolOk(State()) && Exact(State())
      requires |Absolute(cwd, path)| < 248
      modifies this`hdr, this`ents, this`disk
      ensures !initialized ==> !ok && State() == old(State())
      ensures initialized ==> VolOk(State()) && Exact(State())
      ensures initialized ==> (State(), ok) == MkdirOn(old(State()), Np(cwd, path))
    {
      if !initialized { return false; }
      MkdirStays(State(), Np(cwd, path));
      var norm := NpInPlace(cwd, path);
      hide Exact, Shape, MkdirOn, Np, Absolute, Extents;
      ok := MkdirAtPath(norm);
    }

    /** A zero sector into each of the new file's sectors. */
    method ZeroSectors(start: nat, n: nat)
      requires start + n <= |disk|
      modifies this`disk
      ensures disk == ZeroFill(old(disk), start, n)
    {
      ghost var disk0 := disk;
      var s := 0;
      while s < n
        invariant s <= n && disk == ZeroFill(disk0, start, s)
      {
        disk := disk[start + s := Zeros()];
        assert disk == ZeroFill(disk0, start, s + 1);
        s := s + 1;
      }
    }

    /** The second half of `xcfs_create`: entry, bitmap, saves and zeros. */
    method AddFile(norm: string, par: nat, start: nat, size: nat)
      requires Shape(State()) && hdr.count < lay.maxFiles && start + SectorsOf(size) <= hdr.total
      modifies this`hdr, this`ents, this`bits, this`disk
      ensures State() == CreateAt(old(State()), norm, par, start, size)
    {
      ghost var v := State();
      Room(v);
      hide Shape, SectorsOf, AddEntry, SaveHeader, SaveEntries, SaveBitmap, Mark, ZeroFill;
      var nsec := SectorsOf(size);
      var idx := hdr.count;
      ghost var e := Entry(norm, start, size, par, FILE, 0);
      AddSlot(Entry(norm, start, size, par, FILE, 0));
      AddedShape(v, e);
      MarkBits(start, nsec, true);
      SaveHeaderSector();
      ghost var v2 := AddEntry(v, e).(bits := Mark(v.bits, lay.dataStart, start, nsec, true));
      assert State() == SaveHeader(v2);
      SavedShape(v2);
      SaveEntryRange(idx, idx + 1);
      EntriesShape(SaveHeader(v2), idx, idx + 1);
      SaveBitmapSectors();
      ghost var v3 := SaveBitmap(SaveEntries(SaveHeader(v2), idx, idx + 1));
      BitmapShape(SaveEntries(SaveHeader(v2), idx, idx + 1));
      assert State() == v3;
      ZeroSectors(start, nsec);
      assert State() == v3.(disk := ZeroFill(v3.disk, start, nsec));
    }

    /** `xcfs_create` on a normalised path. */
    method CreateAtPath(norm: string, size: nat) returns (ok: bool)
      requires Shape(State())
      modifies this`hdr, this`ents, this`bits, this`disk
      ensures (State(), ok) == CreateOn(old(State()), norm, size)
    {
      ghost var v := State();
      Room(v);
      var par := AdmitPath(norm);
      if par.None? { return false; }
      PlaceIsFirst(v, size);
      hide Admit, Shape, CreateAt, SectorsOf, FirstRun, ClearRun, TableOf;
      var start := FindRun(SectorsOf(size));
      if start.None? { return false; }
      AddFile(norm, par.value, start.value, size);
      ok := true;
    }

    method Create(path: string, size: nat) returns (ok: bool)
      requires initialized ==> VolOk(State()) && Exact(State())
      requires |Absolute(cwd, path)| < 248 && size <= 0xFFFF_FE00
      modifies this`hdr, this`ents, this`bits, this`disk
      ensures !initialized ==> !ok && State() == old(State())
      ensures initialized ==> VolOk(State()) && Exact(State())
      ensures initialized ==> (State(), ok) == CreateOn(old(State()), Np(cwd, path), size)
    {
      if !initialized { return false; }
      CreateStays(State(), Np(cwd, path), size);
      var norm := NpInPlace(cwd, path);
      hide Exact, Shape, CreateOn, Np, Absolute, Extents;
      ok := CreateAtPath(norm, size);
    }

    // -------------------------------------------------------------- delete

    method HasChildren(idx: nat) returns (b: bool)
      requires hdr.count <= |ents|
      ensures b <==> HasChild(TableOf(State()), idx)
    {
      ghost var t := TableOf(State());
      var i := 0;
      while i < hdr.count
        invariant i <= hdr.count && forall k :: 0 <= k < i ==> k == idx || t[k].parent != idx
      {
        assert t[i] == ents[i];
        if i != idx && ents[i].parent == idx { return true; }
        i := i + 1;
      }
      return false;
    }

    method CopySectors(from: nat, to: nat, n: nat)
      requires from + n <= |disk| && to <= from
      modifies this`disk
      ensures disk == CopyDown(old(disk), from, to, n)
    {
      ghost var disk0 := disk;
      var s := 0;
      while s < n
        invariant s <= n && disk == CopyDown(disk0, from, to, s)
      {
        assert disk[from + s] == disk0[from + s];
        disk := disk[to + s := disk[from + s]];
        assert disk == CopyDown(disk0, from, to, s + 1);
        s := s + 1;
      }
    }

    /** One step of the compaction: the file of slot `fi` goes down by `count` sectors. */
    method MoveFile(fi: nat, count: nat)
      requires fi < |ents| && count <= ents[fi].start && ents[fi].start + SectorsOf(ents[fi].size) <= |disk|
      modifies this`ents, this`bits, this`disk
      ensures var e := old(ents)[fi]; var n := SectorsOf(e.size);
              && ents == old(ents)[fi := e.(start := e.start - count)]
              && bits
                 == Mark(Mark(old(bits), lay.dataStart, e.start, n, false), lay.dataStart, e.start - count, n, true)
              && disk == CopyDown(old(disk), e.start, e.start - count, n)
    {
      hide SectorsOf;
      var n := SectorsOf(ents[fi].size);
      var oldStart := ents[fi].start;
      var newStart := oldStart - count;
      CopySectors(oldStart, newStart, n);
      MarkBits(oldStart, n, false);
      MarkBits(newStart, n, true);
      ents := ents[fi := ents[fi].(start := newStart)];
    }

    /** One turn of the compaction loop: slot `fi` moves when its file starts behind the deleted one. */
    method CompactSlot(idx: nat, fi: nat, delStart: nat, delCount: nat, ghost v: Vol)
      requires VolOk(v) && idx < v.hdr.count && fi < v.hdr.count && IsFile(v.ents[idx]) && OnDisk(TableOf(v), |v.disk|)
      requires lay == v.lay && delStart == v.ents[idx].start && delCount == SectorsOf(v.ents[idx].size)
      requires AtStage(State(), v, TableOf(v), GapAt(TableOf(v), idx), fi)
      modifies this`ents, this`bits, this`disk
      ensures AtStage(State(), v, TableOf(v), GapAt(TableOf(v), idx), fi + 1)
    {
      ghost var w := State();
      ghost var t, g := TableOf(v), GapAt(TableOf(v), idx);
      StageSlot(w, v, idx, fi);
      assert g.length == delCount && |t| == v.hdr.count <= |v.ents|;
      hide SectorsOf, Shape, Extents, VolOk, OnDisk, Mark, CopyDown, AtStage, Moves, TableOf, GapAt;
      if IsFile(ents[fi]) && fi != idx && ents[fi].start > delStart {
        MoveFile(fi, delCount);
        StageMoves(w, State(), v, t, g, fi);
      } else {
        StageSkips(w, v, t, g, fi);
      }
    }

    /** The compaction loop of `xcfs_delete`. */
    method CompactFiles(idx: nat)
      requires VolOk(State()) && idx < hdr.count && IsFile(ents[idx]) && OnDisk(TableOf(State()), |disk|)
      modifies this`ents, this`bits, this`disk
      ensures State() == Compacted(old(State()), idx)
    {
      ghost var v := State();
      ghost var t := TableOf(v);
      ghost var g := GapAt(t, idx);
      var delStart, delCount := ents[idx].start, SectorsOf(ents[idx].size);
      hide SectorsOf, Shape, Extents, VolOk, OnDisk, Mark, AtStage, Compacted;
      StageStart(v, t, g);
      MarkBits(delStart, delCount, false);
      assert State() == v.(bits := Mark(v.bits, lay.dataStart, g.start, g.length, false));
      var fi := 0;
      while fi < hdr.count
        invariant fi <= hdr.count && hdr == v.hdr
        invariant AtStage(State(), v, t, g, fi)
      {
        CompactSlot(idx, fi, delStart, delCount, v);
        fi := fi + 1;
      }
      StageEnd(State(), v, idx);
    }

    /** Taking slot `idx` out of the table: the last entry moves there and its children are re-parented. */
    method RemoveEntry(idx: nat)
      requires idx < hdr.count <= |ents|
      modifies this`ents, this`hdr
      ensures State() == DropSlot(old(State()), idx)
    {
      ghost var v := State();
      ghost var t := TableOf(v);
      var last := hdr.count - 1;
      if idx != last {
        ents := ents[idx := ents[last]];
        var i := 0;
        while i < last
          invariant i <= last && |ents| == |v.ents| && hdr == v.hdr
          invariant forall k :: 0 <= k < |ents| ==>
            ents[k] == var e := if k == idx then v.ents[last] else v.ents[k];
                       if k < i then Reparented(e, idx, last) else e
        {
          if ents[i].parent == last {
            ents := ents[i := ents[i].(parent := idx)];
          }
          i := i + 1;
        }
      }
      ents := ents[last := BLANK];
      hdr := hdr.(count := hdr.count - 1);
      assert ents == Removed(t, idx) + [BLANK] + v.ents[v.hdr.count..];
    }

    /** Slot `idx` goes: compaction for a file, then the table, then the saves. */
    method DeleteEntry(idx: nat)
      requires VolOk(State()) && idx < hdr.count && OnDisk(TableOf(State()), |disk|)
      modifies this`hdr, this`ents, this`bits, this`disk
      ensures State() == DeleteSlot(old(State()), idx)
    {
      ghost var v := State();
      Room(v);
      var count := hdr.count;
      var kind := ents[idx].kind;
      assert kind == DIR || kind == FILE;
      hide VolOk, Shape, Extents, Honest, SectorsOf, OnDisk, Compacted, DropSlot, SaveHeader, SaveEntries, SaveBitmap;
      hide HasRoom;
      if kind != DIR {
        CompactFiles(idx);
        CompactedRoom(v, idx);
      }
      DroppedRoom(State(), idx);
      RemoveEntry(idx);
      ghost var w := State();
      RoomIs(w);
      SaveHeaderSector();
      SavedShape(w);
      RoomIs(State());
      SaveEntryRange(idx, count);
      EntriesShape(SaveHeader(w), idx, count);
      RoomIs(State());
      if kind == FILE {
        SaveBitmapSectors();
      }
    }

    method Delete(path: string) returns (ok: bool)
      requires initialized ==> VolOk(State())
      requires |Absolute(cwd, path)| < 248
      modifies this`hdr, this`ents, this`bits, this`disk
      ensures !initialized ==> !ok && State() == old(State())
      ensures initialized ==> (State(), ok) == DeleteOn(old(State()), Np(cwd, path))
    {
      if !initialized { return false; }
      ghost var v := State();
      ExtentsOnDisk(v);
      Room(v);
      var norm := NpInPlace(cwd, path);
      hide Find, VolOk, HasChild, OnDisk, DeleteSlot, Np, Absolute;
      if norm == "/" { return false; }
      var found := FindPath(norm);
      if found.None? { return false; }
      var idx := found.value;
      if HasFlag(ents[idx].flags, PROTECTED) { return false; }
      if ents[idx].kind == DIR {
        var children := HasChildren(idx);
        if children { return false; }
      }
      DeleteEntry(idx);
      ok := true;
    }

    // -------------------------------------------------------------- reading and writing

    /** The first `rd` bytes of the sectors from `start` on. */
    method ReadSectors(start: nat, rd: nat) returns (buf: seq<Byte>)
      requires start + (rd + 511) / 512 <= |disk| && IsDataDisk(disk[start..start + (rd + 511) / 512])
      ensures |buf| == rd && buf <= Flat(disk[start..start + (rd + 511) / 512])
    {
      var nsec := (rd + 511) / 512;
      ghost var c := disk[start..start + nsec];
      buf := [];
      var s := 0;
      hide Flat;
      assert Flat(c[..0]) == [] by { FlatLength(c[..0]); }
      while s < nsec
        invariant s <= nsec && |buf| == (if 512 * s <= rd then 512 * s else rd)
        invariant buf <= Flat(c[..s])
      {
        var sector := disk[start + s];
        var left := rd - |buf|;
        var cp := if left > 512 then 512 else left;
        ReadStep(c, s, buf, cp);
        buf := buf + sector.bytes[..cp];
        s := s + 1;
      }
      assert c[..nsec] == c;
    }

    /** The first bytes of the file in slot `u`: at most `size`, and at most its size. */
    method ReadSlot(u: nat, size: nat) returns (buf: seq<Byte>)
      requires VolOk(State()) && u < hdr.count && IsFile(ents[u])
      ensures ents[u].start + SectorsOf(ents[u].size) <= |disk|
      ensures |buf| == if size < ents[u].size then size else ents[u].size
      ensures buf <= Flat(Content(ents[u], disk))
    {
      var e := ents[u];
      var rd := if size < e.size then size else e.size;
      hide VolOk, Shape, Extents, Flat, Content, SectorsOf, IsDataDisk, Honest, AllApart, AllWithin;
      ReadRange(State(), u, rd);
      buf := ReadSectors(e.start, rd);
      ReadContent(State(), u, rd, buf);
    }

    method Read(path: string, size: nat) returns (r: Option<seq<Byte>>)
      requires initialized ==> VolOk(State()) && OnDisk(TableOf(State()), |disk|)
      requires |Absolute(cwd, path)| < 248
      ensures r == if initialized then ReadOn(State(), Np(cwd, path), size) else None
    {
      if !initialized { return None; }
      ghost var v := State();
      Room(v);
      var norm := NpInPlace(cwd, path);
      hide Find, Np, Absolute, Content, Flat, SectorsOf, OnDisk, VolOk;
      var found := FindPath(norm);
      if found.None? { return None; }
      assert TableOf(v)[found.value] == ents[found.value];
      if ents[found.value].kind != FILE { return None; }
      var buf := ReadSlot(found.value, size);
      hide ReadOn;
      ReadFound(v, norm, found.value, size, buf);
      r := Some(buf);
    }

    /** The data sector by sector, the last one padded with zeros. */
    method WriteDataSectors(start: nat, data: seq<Byte>, n: nat)
      requires start + n <= |disk|
      modifies this`disk
      ensures disk == WriteSectors(old(disk), start, data, n)
    {
      hide Chunk;
      ghost var disk0 := disk;
      var s := 0;
      while s < n
        invariant s <= n && disk == WriteSectors(disk0, start, data, s)
      {
        disk := disk[start + s := Chunk(data, s)];
        assert disk == WriteSectors(disk0, start, data, s + 1);
        s := s + 1;
      }
    }

    method Write(path: string, data: seq<Byte>) returns (ok: bool)
      requires initialized ==> VolOk(State()) && Exact(State())
      requires |Absolute(cwd, path)| < 248
      modifies this`disk
      ensures !initialized ==> !ok && State() == old(State())
      ensures initialized ==> VolOk(State()) && Exact(State())
      ensures initialized ==> (State(), ok) == WriteOn(old(State()), Np(cwd, path), data)
    {
      if !initialized { return false; }
      ghost var v := State();
      Room(v);
      WriteStays(v, Np(cwd, path), data);
      var norm := NpInPlace(cwd, path);
      hide Np, Absolute, Find, Exact, Extents, Shape;
      var found := FindPath(norm);
      if found.None? { return false; }
      var e := ents[found.value];
      if e.kind != FILE || HasFlag(e.flags, READONLY) || |data| > e.size { return false; }
      WriteRange(v, found.value, |data|);
      hide SectorsOf, VolOk, WriteSectors, SaveEntries;
      WriteSlotData(found.value, data);
      ok := true;
    }

    /** The data and then the entry of slot `idx`. */
    method WriteSlotData(idx: nat, data: seq<Byte>)
      requires idx < |ents| && HasRoom(State()) && ents[idx].start + SectorsOf(|data|) <= |disk|
      modifies this`disk
      ensures var v := old(State());
              State() == SaveEntries(v.(disk := WriteSectors(v.disk, v.ents[idx].start, data, SectorsOf(|data|))), idx,
                idx + 1)
    {
      hide SectorsOf, WriteSectors, SaveEntries;
      WriteDataSectors(ents[idx].start, data, SectorsOf(|data|));
      SaveEntryRange(idx, idx + 1);
    }

    // -------------------------------------------------------------- listing

    /** The loop of `xcfs_readdir`: the first `max` entries whose parent is slot `d`. */
    method ListChildren(d: nat, max: nat) returns (out: seq<Dirent>)
      requires hdr.count <= |ents|
      ensures out == Listing(TableOf(State()), d, max)
    {
      ghost var t := TableOf(State());
      hide DirentOf, Listing, ListedTo;
      out := [];
      ghost var slots: seq<nat> := [];
      var i := 0;
      ListStart(t, d);
      while i < hdr.count && |out| < max
        invariant i <= hdr.count && |out| == |slots| <= max && ListedTo(t, d, i, slots, out)
      {
        ListStep(t, d, i, slots, out);
        if i != d && ents[i].parent == d {
          out := out + [DirentOf(ents[i])];
          slots := slots + [i];
        }
        i := i + 1;
      }
      ListEnd(t, d, i, slots, out, max);
    }

    method Readdir(path: string, max: nat) returns (r: Option<seq<Dirent>>)
      requires hdr.count <= |ents| && |Absolute(cwd, path)| < 248
      ensures r == if initialized && max > 0 then ReaddirOf(TableOf(State()), Np(cwd, path), max) else None
    {
      if !initialized || max == 0 { return None; }
      var norm := NpInPlace(cwd, path);
      hide Find, Np, Absolute, Listing;
      var found := FindPath(norm);
      if found.None? { return None; }
      var d := found.value;
      assert TableOf(State())[d] == ents[d];
      if ents[d].kind != DIR { return None; }
      var out := ListChildren(d, max);
      r := Some(out);
    }
  }

  /** The entries of `slots` are listed, and `i` is the next slot to look at. */
  ghost predicate ListedTo(t: Table, d: nat, i: nat, slots: seq<nat>, out: seq<Dirent>) {
    && i <= |t| && (forall k :: 0 <= k < |slots| ==> slots[k] < |t|)
    && out == Dirents(t, slots) && slots + Slots(t, d, i) == Slots(t, d, 0)
  }

  lemma ListStart(t: Table, d: nat)
    ensures ListedTo(t, d, 0, [], [])
  {
  }

  lemma ListStep(t: Table, d: nat, i: nat, slots: seq<nat>, out: seq<Dirent>)
    requires i < |t| && ListedTo(t, d, i, slots, out)
    ensures if i != d && t[i].parent == d then ListedTo(t, d, i + 1, slots + [i], out + [DirentOf(t[i])])
            else ListedTo(t, d, i + 1, slots, out)
  {
  }

  lemma ListEnd(t: Table, d: nat, i: nat, slots: seq<nat>, out: seq<Dirent>, max: nat)
    requires ListedTo(t, d, i, slots, out) && |slots| <= max && (i == |t| || |slots| == max)
    ensures out == Listing(t, d, max)
  {
  }

  /** The cache and disk when the compaction has passed the first `k` slots. */
  ghost predicate AtStage(w: Vol, v: Vol, t: Table, g: Gap, k: nat)
    requires k <= |t| == v.hdr.count <= |v.ents| && OnDisk(t, |v.disk|)
  {
    && w.ents == Stage(t, g, k) + v.ents[|t|..]
    && w.bits == StageBits(v.bits, v.lay.dataStart, t, g, k)
    && w.disk == StageDisk(v.disk, t, g, k)
  }

  lemma StageStart(v: Vol, t: Table, g: Gap)
    requires v.hdr.count <= |v.ents| && t == TableOf(v) && OnDisk(t, |v.disk|)
    ensures AtStage(v.(bits := Mark(v.bits, v.lay.dataStart, g.start, g.length, false)), v, t, g, 0)
  {
  }

  lemma StageSlot(w: Vol, v: Vol, u: nat, k: nat)
    requires VolOk(v) && u < v.hdr.count && k < v.hdr.count && OnDisk(TableOf(v), |v.disk|) && IsFile(v.ents[u])
    requires AtStage(w, v, TableOf(v), GapAt(TableOf(v), u), k)
    ensures var t := TableOf(v); var g := GapAt(t, u);
            && |w.ents| == |v.ents| && w.ents[k] == t[k] && |w.disk| == |v.disk|
            && (IsFile(t[k]) ==> t[k].start + SectorsOf(t[k].size) <= |w.disk|)
            && (Moves(t, g, k) <==> IsFile(t[k]) && k != u && t[k].start > v.ents[u].start)
            && (Moves(t, g, k) ==> g.length <= t[k].start)
  {
  }

  lemma StageSkips(w: Vol, v: Vol, t: Table, g: Gap, k: nat)
    requires k < |t| == v.hdr.count <= |v.ents| && OnDisk(t, |v.disk|) && AtStage(w, v, t, g, k) && !Moves(t, g, k)
    ensures AtStage(w, v, t, g, k + 1)
  {
  }

  lemma StageMoves(w: Vol, w': Vol, v: Vol, t: Table, g: Gap, k: nat)
    requires k < |t| == v.hdr.count <= |v.ents| && OnDisk(t, |v.disk|) && AtStage(w, v, t, g, k)
    requires Moves(t, g, k) && g.length <= t[k].start && t[k].start + SectorsOf(t[k].size) <= |w.disk|
    requires k < |w.ents| && w'.ents == w.ents[k := t[k].(start := t[k].start - g.length)]
    requires var n := SectorsOf(t[k].size); var a := t[k].start;
             && w'.bits == Mark(Mark(w.bits, v.lay.dataStart, a, n, false), v.lay.dataStart, a - g.length, n, true)
             && w'.disk == CopyDown(w.disk, a, a - g.length, n)
    ensures AtStage(w', v, t, g, k + 1)
  {
  }

  lemma StageEnd(w: Vol, v: Vol, u: nat)
    requires u < v.hdr.count <= |v.ents| && OnDisk(TableOf(v), |v.disk|)
    requires AtStage(w, v, TableOf(v), GapAt(TableOf(v), u), v.hdr.count)
    requires w.lay == v.lay && w.hdr == v.hdr
    ensures w == Compacted(v, u)
  {
  }

  /** What a read of a file needs of the disk. */
  lemma ReadRange(v: Vol, u: nat, rd: nat)
    requires VolOk(v) && u < v.hdr.count && IsFile(v.ents[u]) && rd <= v.ents[u].size
    ensures var e := v.ents[u]; var n := (rd + 511) / 512;
            && n <= SectorsOf(e.size) && e.start + SectorsOf(e.size) <= |v.disk|
            && IsDataDisk(v.disk[e.start..e.start + n])
  {
    assert Honest(v.ents[u]);
    HonestIff(v.ents[u].size);
    SectorsMonotone(rd, v.ents[u].size);
    var e := v.ents[u];
    var n := (rd + 511) / 512;
    assert n <= SectorsOf(e.size);
    hide SectorsOf, Honest;
    assert e == TableOf(v)[u];
  }

  /** What it finds there. */
  lemma ReadContent(v: Vol, u: nat, rd: nat, buf: seq<Byte>)
    requires VolOk(v) && u < v.hdr.count && IsFile(v.ents[u]) && rd <= v.ents[u].size
    requires var e := v.ents[u]; var n := (rd + 511) / 512;
             e.start + n <= |v.disk| && buf <= Flat(v.disk[e.start..e.start + n])
    ensures v.ents[u].start + SectorsOf(v.ents[u].size) <= |v.disk|
    ensures buf <= Flat(Content(v.ents[u], v.disk))
  {
    var e := v.ents[u];
    var n := (rd + 511) / 512;
    hide VolOk, Flat, SectorsOf, IsDataDisk;
    ReadRange(v, u, rd);
    var c, whole := v.disk[e.start..e.start + n], Content(e, v.disk);
    assert whole[..n] == c;
    FlatPrefix(whole, n);
    PrefixThen(buf, Flat(c), Flat(whole));
  }

  lemma PrefixThen(a: seq<Byte>, b: seq<Byte>, c: seq<Byte>)
    requires a <= b && b <= c
    ensures a <= c
  {
  }

  lemma ReadFound(v: Vol, norm: string, u: nat, size: nat, buf: seq<Byte>)
    requires v.hdr.count <= |v.ents| && OnDisk(TableOf(v), |v.disk|)
    requires Find(TableOf(v), norm) == Some(u) && IsFile(TableOf(v)[u])
    requires |buf| == if size < TableOf(v)[u].size then size else TableOf(v)[u].size
    requires buf <= Flat(Content(TableOf(v)[u], v.disk))
    ensures ReadOn(v, norm, size) == Some(buf)
  {
    hide Find, Flat, Content, SectorsOf;
    var bytes := Flat(Content(TableOf(v)[u], v.disk));
    assert bytes[..|buf|] == buf;
  }

  lemma WriteRange(v: Vol, u: nat, n: nat)
    requires VolOk(v) && u < v.hdr.count && IsFile(v.ents[u]) && n <= v.ents[u].size
    ensures v.ents[u].start + SectorsOf(n) <= |v.disk|
  {
  }

  lemma FlatSnoc(c: seq<Sector>, s: nat)
    requires s < |c|
    ensures Flat(c[..s + 1]) == Flat(c[..s]) + BytesOf(c[s])
  {
    assert c[..s + 1] == c[..s] + [c[s]];
    FlatConcat(c[..s], [c[s]]);
    assert Flat([c[s]]) == BytesOf(c[s]) + [];
  }

  /** One more sector read: the buffer grows by its first `cp` bytes. */
  lemma ReadStep(c: seq<Sector>, s: nat, buf: seq<Byte>, cp: nat)
    requires s < |c| && IsDataDisk(c) && buf <= Flat(c[..s]) && |buf| == 512 * s && cp <= 512
    ensures c[s].Data? && |c[s].bytes| == 512 && buf + c[s].bytes[..cp] <= Flat(c[..s + 1])
  {
    FlatLength(c[..s]);
    FlatSnoc(c, s);
    hide Flat;
    assert buf == Flat(c[..s]);
    assert (buf + c[s].bytes)[..|buf| + cp] == buf + c[s].bytes[..cp];
  }

  lemma FlatPrefix(c: seq<Sector>, n: nat)
    requires n <= |c|
    ensures Flat(c[..n]) <= Flat(c)
  {
    FlatConcat(c[..n], c[n..]);
    assert c[..n] + c[n..] == c;
  }

  lemma CreateStays(v: Vol, norm: string, size: nat)
    requires VolOk(v) && Exact(v) && size <= 0xFFFF_FE00
    ensures VolOk(CreateOn(v, norm, size).0) && Exact(CreateOn(v, norm, size).0)
  {
    CreateLaw(v, norm, size);
  }

  lemma MkdirStays(v: Vol, norm: string)
    requires VolOk(v) && Exact(v)
    ensures VolOk(MkdirOn(v, norm).0) && Exact(MkdirOn(v, norm).0)
  {
    MkdirLaw(v, norm);
  }

  lemma WriteStays(v: Vol, norm: string, data: seq<Byte>)
    requires VolOk(v) && Exact(v)
    ensures VolOk(WriteOn(v, norm, data).0) && Exact(WriteOn(v, norm, data).0)
  {
  }

  // ---------------------------------------------------------------- room for the saves

  /** A mounted volume's disk has room for everything the saves write. */
  lemma Room(v: Vol)
    requires Shape(v)
    ensures v.lay.dataStart <= v.hdr.total && v.hdr.total - v.lay.dataStart <= |v.bits| && v.hdr.total <= |v.disk|
    ensures v.hdr.count <= |v.ents| == v.lay.maxFiles && 0 < v.hdr.count
    ensures HasRoom(v) && Roomy(v)
  {
  }

  predicate HasRoom(v: Vol) {
    v.lay.meta + 1 + |v.ents| + |v.bits| / 4096 <= |v.disk| && |v.ents| == v.lay.maxFiles
  }

  lemma RoomIs(v: Vol)
    requires HasRoom(v)
    ensures v.lay.meta + 1 + |v.ents| + |v.bits| / 4096 <= |v.disk| && |v.ents| == v.lay.maxFiles
  {
  }

  lemma CompactedRoom(v: Vol, u: nat)
    requires u < v.hdr.count <= |v.ents| && OnDisk(TableOf(v), |v.disk|) && HasRoom(v)
    ensures var w := Compacted(v, u); HasRoom(w) && w.hdr == v.hdr && |w.ents| == |v.ents|
  {
  }

  lemma DroppedRoom(v: Vol, u: nat)
    requires u < v.hdr.count <= |v.ents| && HasRoom(v)
    ensures HasRoom(DropSlot(v, u)) && |DropSlot(v, u).ents| == |v.ents|
  {
  }

  lemma AddedShape(v: Vol, e: Entry)
    requires HasRoom(v) && v.hdr.count < |v.ents|
    ensures HasRoom(AddEntry(v, e)) && |AddEntry(v, e).ents| == |v.ents|
  {
  }

  lemma SavedShape(v: Vol)
    requires HasRoom(v)
    ensures var w := SaveHeader(v); HasRoom(w) && w == v.(disk := w.disk) && |w.disk| == |v.disk|
  {
  }

  lemma EntriesShape(v: Vol, from: nat, to: nat)
    requires HasRoom(v) && from <= to <= |v.ents|
    ensures var w := SaveEntries(v, from, to); HasRoom(w) && w == v.(disk := w.disk) && |w.disk| == |v.disk|
  {
  }

  lemma BitmapShape(v: Vol)
    requires HasRoom(v)
    ensures var w := SaveBitmap(v); HasRoom(w) && w == v.(disk := w.disk) && |w.disk| == |v.disk|
  {
  }
}
