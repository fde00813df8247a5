/** extra/xcfs_inject.py as it updates its fields and the image file step by step. */
module Injector {
  import opened XcfsTypes
  import opened XcfsTree
  import opened XcfsVolume
  import opened InjectVolume
  import opened InjectLaws
  import opened Options
  import opened Paths

  /** The script's object; a method that answers `false` or nothing stands for one that ended the script. */
  class Script {
    const lay: Layout
    var hdr: Header
    var ents: seq<Entry>
    var bmp: seq<bool>
    var image: seq<Sector>

    function State(): Vol
      reads this
    {
      Vol(lay, hdr, ents, bmp, image)
    }

    constructor (lay: Layout, image: seq<Sector>)
      ensures this.lay == lay && this.image == image
    {
      this.lay, this.image := lay, image;
      hdr, ents, bmp := Header(0, 0, 0, 0), [], [];
    }

    // -------------------------------------------------------------- loading

    /** `_load_ents`. */
    method LoadEntries(n: nat)
      requires lay.meta + 1 + n <= |image|
      modifies this`ents
      ensures |ents| == n
      ensures forall i :: 0 <= i < n ==>
        ents[i] == if image[lay.meta + 1 + i].EntrySector? then image[lay.meta + 1 + i].e else BLANK
    {
      ents := [];
      while |ents| < n
        invariant |ents| <= n
        invariant forall i :: 0 <= i < |ents| ==>
          ents[i] == if image[lay.meta + 1 + i].EntrySector? then image[lay.meta + 1 + i].e else BLANK
      {
        var s := image[lay.meta + 1 + |ents|];
        ents := ents + [if s.EntrySector? then s.e else BLANK];
      }
    }

    /** `_load_bmp`. */
    method LoadBitmap()
      requires BitmapStart(lay) + BitmapSectors(hdr.total) <= |image|
      modifies this`bmp
      ensures bmp == LoadBits(image, BitmapStart(lay), 0, BitmapSectors(hdr.total))
    {
      bmp := [];
      var i, m := 0, BitmapSectors(hdr.total);
      while i < m
        invariant i <= m
        invariant bmp + LoadBits(image, BitmapStart(lay), i, m) == LoadBits(image, BitmapStart(lay), 0, m)
      {
        var s := image[BitmapStart(lay) + i];
        ghost var rest := LoadBits(image, BitmapStart(lay), i + 1, m);
        var piece := if s.BitmapSector? then s.bits else [];
        assert bmp + (piece + rest) == bmp + piece + rest;
        bmp := bmp + piece;
        i := i + 1;
      }
      assert bmp + [] == bmp;
    }

    /** The loads and header checks of `__init__`. */
    method Open() returns (ok: bool)
      modifies this`hdr, this`ents, this`bmp
      ensures ok <==> LoadOn(lay, image).Some?
      ensures ok ==> LoadOn(lay, image) == Some(State())
    {
      if lay.meta >= |image| || !image[lay.meta].HeaderSector? { return false; }
      hdr := image[lay.meta].h;
      if hdr.magic != MAGIC || hdr.version != VERSION { return false; }
      if hdr.total > |image| {
        hdr := hdr.(total := |image|);
      }
      if hdr.count > lay.maxFiles || lay.dataStart >= hdr.total { return false; }
      var n := if hdr.count == 0 then 1 else hdr.count;
      if lay.meta + 1 + n > |image| || BitmapStart(lay) + BitmapSectors(hdr.total) > |image| { return false; }
      LoadEntries(n);
      LoadBitmap();
      assert ents == LoadOn(lay, image).value.ents;
      ok := true;
    }

    // -------------------------------------------------------------- check

    /** The sectors of one file that the bitmap does not have, counted. */
    method UnmarkedSectors(start: nat, n: nat) returns (errs: nat)
      ensures errs == 0 <==> AllMarked(State(), start, n)
    {
      errs := 0;
      var i := 0;
      while i < n
        invariant i <= n && (errs == 0 <==> AllMarked(State(), start, i))
      {
        var x := start + i;
        var marked := x < lay.dataStart || (x - lay.dataStart < |bmp| && bmp[x - lay.dataStart]);
        assert marked <==> Marked(State(), x);
        if !marked { errs := errs + 1; }
        i := i + 1;
      }
    }

    /** What is wrong with where one file lies, counted. */
    method FileErrors(e: Entry) returns (errs: nat)
      ensures errs == 0 <==> Placed(State(), e)
    {
      hide Count, Marked, AllMarked;
      var n := Count(e.size);
      if e.start < lay.dataStart { return 1; }
      errs := if e.start + n > hdr.total then 1 else 0;
      var unmarked := UnmarkedSectors(e.start, n);
      errs := errs + unmarked;
      MarkedIsWithin(State(), e, unmarked == 0);
    }

    /** `check`: counts what is wrong, with the paths seen so far in a dictionary. */
    method Check() returns (ok: bool)
      requires hdr.count <= |ents|
      ensures ok <==> Passes(State())
    {
      ghost var v := State();
      hide Placed, DistinctPaths, PlacedUpTo;
      var errs := 0;
      if ents == [] || ents[0].path != "/" { errs := 1; }
      var rootOk := errs == 0;
      var seen: map<string, nat> := map[];
      var i := 0;
      NothingSeen(v);
      while i < hdr.count
        invariant i <= hdr.count && rootOk == (ents != [] && ents[0].path == "/")
        invariant forall p :: p in seen <==> exists k :: 0 <= k < i && ents[k].path == p
        invariant errs == 0 <==> rootOk && DistinctPaths(ents[..i]) && PlacedUpTo(v, i)
      {
        SeenStep(ents, i, seen);
        PlacedStep(v, i);
        if ents[i].path in seen { errs := errs + 1; }
        seen := seen[ents[i].path := i];
        if IsFile(ents[i]) {
          var wrong := FileErrors(ents[i]);
          errs := errs + wrong;
        }
        i := i + 1;
      }
      AllPlaced(v);
      ok := errs == 0;
    }

    // -------------------------------------------------------------- lookup and allocation

    /** `_find`. */
    method FindPath(p: string) returns (r: Option<nat>)
      requires hdr.count <= |ents|
      ensures r == Find(TableOf(State()), p)
    {
      ghost var t := TableOf(State());
      assert t[0..] == t;
      var i := 0;
      while i < hdr.count
        invariant i <= hdr.count
        invariant Find(t, p) == match Find(t[i..], p) case None => None case Some(k) => Some(k + i)
      {
        assert t[i..][1..] == t[i + 1..];
        if ents[i].path == p { return Some(i); }
        i := i + 1;
      }
      return None;
    }

    /** `_par`. */
    method FindParentDir(norm: string) returns (r: Option<nat>)
      requires hdr.count <= |ents| && norm != ""
      ensures r == ParentOf(State(), norm)
    {
      if norm == "/" { return Some(0); }
      hide Find;
      var d := FindPath(Dirname(norm));
      if d.None? || ents[d.value].kind != DIR { return None; }
      r := d;
    }

    /** `_find_free`. */
    method FindFree(n: nat) returns (r: Option<nat>)
      requires n > 0 && lay.dataStart <= hdr.total && hdr.total - lay.dataStart <= |bmp|
      ensures r == FreeRun(State(), n)
    {
      var total := hdr.total - lay.dataStart;
      var run, start := 0, 0;
      var i := 0;
      while i < total
        invariant i <= total && run <= i && run < n
        invariant run > 0 ==> start == i - run
        invariant forall k :: i - run <= k < i ==> !bmp[k]
        invariant forall s :: 0 <= s < i - run ==> !ClearRun(bmp, s, n)
      {
        if !bmp[i] {
          if run == 0 { start := i; }
          run := run + 1;
          if run >= n {
            assert ClearRun(bmp, start, n);
            return Some(lay.dataStart + start);
          }
        } else {
          run := 0;
        }
        i := i + 1;
      }
      return None;
    }

    /** `_mark`. */
    method MarkSectors(s: nat, n: nat, v: bool)
      modifies this`bmp
      ensures bmp == Mark(old(bmp), lay.dataStart, s, n, v)
    {
      ghost var bmp0 := bmp;
      var i := 0;
      while i < n
        invariant i <= n && |bmp| == |bmp0|
        invariant forall k :: 0 <= k < |bmp| ==> bmp[k] == if s <= lay.dataStart + k < s + i then v else bmp0[k]
      {
        if s + i >= lay.dataStart && s + i - lay.dataStart < |bmp| {
          bmp := bmp[s + i - lay.dataStart := v];
        }
        i := i + 1;
      }
    }

    // -------------------------------------------------------------- writing

    /** `_write_data`: ends the script at the first sector outside the volume. */
    method WriteData(start: nat, data: seq<Byte>) returns (ok: bool)
      requires hdr.total <= |image|
      modifies this`image
      ensures ok <==> start + Count(|data|) <= hdr.total
      ensures ok ==> image == WriteSectors(old(image), start, data, Count(|data|))
    {
      hide Chunk, Count;
      ghost var image0 := image;
      var n := Count(|data|);
      var s := 0;
      while s < n
        invariant s <= n && (s == 0 || start + s <= hdr.total) && image == WriteSectors(image0, start, data, s)
      {
        if start + s >= hdr.total { return false; }
        image := image[start + s := Chunk(data, s)];
        assert image == WriteSectors(image0, start, data, s + 1);
        s := s + 1;
      }
      return true;
    }

    /** `_save_ent`. */
    method SaveSlot(i: nat)
      requires i < |ents| && lay.meta + 1 + i < |image|
      modifies this`image
      ensures State() == SaveEntries(old(State()), i, i + 1)
    {
      ghost var v := State();
      image := image[lay.meta + 1 + i := EntrySector(ents[i])];
      assert image == SaveEntries(v, i, i + 1).disk;
    }

    /** `_save_hdr`. */
    method SaveHeaderSector()
      requires lay.meta < |image|
      modifies this`image
      ensures State() == SaveHeader(old(State()))
    {
      image := image[lay.meta := HeaderSector(hdr)];
    }

    /** `_save_bmp`. */
    method SaveBitmapSectors()
      requires BitmapStart(lay) + |bmp| / 4096 <= |image|
      modifies this`image
      ensures State() == SaveBitmap(old(State()))
    {
      ghost var v := State();
      var base := BitmapStart(lay);
      var i := 0;
      while i < |bmp| / 4096
        invariant i <= |bmp| / 4096 && |image| == |v.disk|
        invariant forall x :: 0 <= x < |image| ==>
          image[x] == if base <= x < base + i then BitmapSlice(bmp, x - base) else v.disk[x]
      {
        image := image[base + i := BitmapSlice(bmp, i)];
        i := i + 1;
      }
      assert image == SaveBitmap(v).disk;
    }

    // -------------------------------------------------------------- inject

    /** The new contents fit the sectors that the file has. */
    method OverwriteInPlace(i: nat, data: seq<Byte>, flags: nat) returns (ok: bool)
      requires Shaped(State()) && i < hdr.count && !HasFlag(ents[i].flags, PROTECTED)
      modifies this`ents, this`image
      ensures ok <==> old(ents)[i].start + Count(|data|) <= hdr.total
      ensures ok ==> State() == InPlace(old(State()), i, data, flags)
    {
      var e := ents[i];
      ok := WriteData(e.start, data);
      if !ok { return; }
      hide WriteSectors, Count, HasFlag;
      ents := ents[i := e.(size := |data|, flags := NewFlags(e.flags, flags))];
      SaveSlot(i);
    }

    /** The new contents go to sectors of their own, and the old ones become free. */
    method Relocate(i: nat, start: nat, data: seq<Byte>, flags: nat)
      requires Shaped(State()) && i < hdr.count && start + Count(|data|) <= hdr.total
      modifies this`ents, this`bmp, this`image
      ensures State() == Relocated(old(State()), i, start, data, flags)
    {
      ghost var v := State();
      var e, n := ents[i], Count(|data|);
      MarkSectors(start, n, true);
      var ok := WriteData(start, data);
      MarkSectors(e.start, Count(e.size), false);
      hide WriteSectors, Count, Mark, NewFlags, SaveEntries, SaveBitmap;
      ents := ents[i := e.(start := start, size := |data|, flags := NewFlags(e.flags, flags))];
      ghost var w := State();
      SaveSlot(i);
      SavedSizes(w, i);
      SaveBitmapSectors();
    }

    /** `_overwrite`. */
    method Overwrite(i: nat, data: seq<Byte>, flags: nat) returns (ok: bool)
      requires Shaped(State()) && i < hdr.count
      modifies this`ents, this`bmp, this`image
      ensures ok <==> OverwriteOn(old(State()), i, data, flags).Some?
      ensures ok ==> OverwriteOn(old(State()), i, data, flags) == Some(State())
      ensures !ok && (IsFile(old(ents)[i]) ==> Placed(old(State()), old(ents)[i])) ==> State() == old(State())
    {
      ghost var v := State();
      var e := ents[i];
      if HasFlag(e.flags, PROTECTED) || HasFlag(e.flags, READONLY) || !IsFile(e) { return false; }
      var n := Count(|data|);
      hide InPlace, Relocated, FreeRun, Count, HasFlag;
      if n <= Count(e.size) {
        ok := OverwriteInPlace(i, data, flags);
      } else {
        var start := FindFree(n);
        if start.None? { return false; }
        FreeIsInside(v, n);
        Relocate(i, start.value, data, flags);
        ok := true;
      }
    }

    /** A new entry behind the last used slot, its sectors, and the saves. */
    method Append(norm: string, par: nat, start: nat, data: seq<Byte>, flags: nat)
      requires Shaped(State()) && hdr.count < lay.maxFiles && start + Count(|data|) <= hdr.total
      modifies this`hdr, this`ents, this`bmp, this`image
      ensures State() == Appended(old(State()), norm, par, start, data, flags)
    {
      ghost var v := State();
      AppendRoom(v);
      hide Shaped, Count, WriteSectors, Mark, SaveEntries, SaveBitmap, SaveHeader, HasFlag;
      var n := Count(|data|);
      var e := Entry(norm, start, |data|, par, FILE, flags - (if HasFlag(flags, PROTECTED) then PROTECTED else 0));
      PutBehind(v, e);
      MarkSectors(start, n, true);
      var ok := WriteData(start, data);
      var idx := hdr.count;
      ents := if idx < |ents| then ents[idx := e] else ents + [e];
      hdr := hdr.(count := hdr.count + 1);
      assert State() == v.(
        bits := Mark(v.bits, lay.dataStart, start, n, true), disk := WriteSectors(v.disk, start, data, n),
        ents := TableOf(v) + [e], hdr := v.hdr.(count := v.hdr.count + 1));
      SaveNew(idx);
    }

    /** The saves at the end of `_create`. */
    method SaveNew(idx: nat)
      requires idx < |ents| && lay.meta + 1 + idx < |image| && BitmapStart(lay) + |bmp| / 4096 <= |image|
      modifies this`image
      ensures State() == SaveBitmap(SaveHeader(SaveEntries(old(State()), idx, idx + 1)))
    {
      hide SaveEntries, SaveHeader, SaveBitmap;
      ghost var w := State();
      SaveSlot(idx);
      SavedSizes(w, idx);
      SaveHeaderSector();
      HeaderSizes(SaveEntries(w, idx, idx + 1));
      SaveBitmapSectors();
    }

    /** `_create`. */
    method CreateFile(norm: string, data: seq<Byte>, flags: nat) returns (ok: bool)
      requires Shaped(State()) && norm != ""
      modifies this`hdr, this`ents, this`bmp, this`image
      ensures ok <==> CreateFileOn(old(State()), norm, data, flags).Some?
      ensures ok ==> CreateFileOn(old(State()), norm, data, flags) == Some(State())
      ensures !ok ==> State() == old(State())
    {
      ghost var v := State();
      if hdr.count >= lay.maxFiles { return false; }
      hide ParentOf, FreeRun, Count, Appended;
      var par := FindParentDir(norm);
      if par.None? { return false; }
      var start := FindFree(Count(|data|));
      if start.None? { return false; }
      FreeIsInside(v, Count(|data|));
      Append(norm, par.value, start.value, data, flags);
      ok := true;
    }

    /** `inject`, with the contents of the host file. */
    method Inject(path: string, data: seq<Byte>, flags: nat) returns (ok: bool)
      requires Shaped(State())
      modifies this`hdr, this`ents, this`bmp, this`image
      ensures ok <==> InjectOn(old(State()), path, data, flags).Some?
      ensures ok ==> InjectOn(old(State()), path, data, flags) == Some(State())
      ensures !ok && Passes(old(State())) ==> State() == old(State())
    {
      var norm := NormLoop(path);
      if |norm| >= 248 || |data| >= 0x1_0000_0000 { return false; }
      hide Find, Norm, OverwriteOn, CreateFileOn;
      var found := FindPath(norm);
      if found.Some? {
        ok := Overwrite(found.value, data, flags);
      } else {
        ok := CreateFile(norm, data, flags);
      }
    }

    /** One start with a host file: load, `check`, `inject`.  One that ends early leaves the image as it was. */
    method Start(job: Job) returns (ok: bool)
      requires match LoadOn(lay, image) case None => true case Some(v) => Shaped(v)
      modifies this`hdr, this`ents, this`bmp, this`image
      ensures ok <==> Session(lay, old(image), job).Some?
      ensures image == Started(lay, old(image), job)
    {
      ok := Open();
      if !ok { return; }
      hide LoadOn, Shaped, Passes, InjectOn;
      ok := Check();
      if !ok { return; }
      ok := Inject(job.path, job.data, job.flags);
    }
  }

  /** The file entries in front of slot `n` are placed. */
  ghost predicate PlacedUpTo(v: Vol, n: nat)
    requires n <= |v.ents|
  {
    forall i :: 0 <= i < n && IsFile(v.ents[i]) ==> Placed(v, v.ents[i])
  }

  lemma NothingSeen(v: Vol)
    ensures PlacedUpTo(v, 0) && DistinctPaths(v.ents[..0])
  {
  }

  lemma AllPlaced(v: Vol)
    requires v.hdr.count <= |v.ents|
    ensures Passes(v) <==>
            && v.ents != [] && v.ents[0].path == "/"
            && DistinctPaths(v.ents[..v.hdr.count]) && PlacedUpTo(v, v.hdr.count)
  {
  }

  lemma PlacedStep(v: Vol, i: nat)
    requires i < |v.ents|
    ensures PlacedUpTo(v, i + 1) <==> PlacedUpTo(v, i) && (IsFile(v.ents[i]) ==> Placed(v, v.ents[i]))
  {
  }

  lemma SeenStep(ents: seq<Entry>, i: nat, seen: map<string, nat>)
    requires i < |ents| && forall p :: p in seen <==> exists k :: 0 <= k < i && ents[k].path == p
    ensures DistinctPaths(ents[..i + 1]) <==> DistinctPaths(ents[..i]) && ents[i].path !in seen
  {
  }

  ghost predicate AllMarked(v: Vol, start: nat, n: nat) {
    forall x :: start <= x < start + n ==> Marked(v, x)
  }

  lemma MarkedIsWithin(v: Vol, e: Entry, all: bool)
    requires all <==> AllMarked(v, e.start, Count(e.size))
    ensures Placed(v, e) <==> v.lay.dataStart <= e.start && e.start + Count(e.size) <= v.hdr.total && all
  {
  }

  /** Room for one more entry, its slot and the bitmap. */
  lemma AppendRoom(v: Vol)
    requires Shaped(v) && v.hdr.count < v.lay.maxFiles
    ensures v.hdr.total <= |v.disk| && v.hdr.count <= |v.ents| <= v.hdr.count + 1
    ensures v.lay.meta + 1 + v.hdr.count < |v.disk| && BitmapStart(v.lay) + |v.bits| / 4096 <= |v.disk|
  {
  }

  lemma PutBehind(v: Vol, e: Entry)
    requires v.hdr.count <= |v.ents| <= v.hdr.count + 1
    ensures (if v.hdr.count < |v.ents| then v.ents[v.hdr.count := e] else v.ents + [e]) == TableOf(v) + [e]
  {
  }

  lemma SavedSizes(w: Vol, i: nat)
    requires i < |w.ents|
    ensures var s := SaveEntries(w, i, i + 1); s == w.(disk := s.disk) && |s.disk| == |w.disk|
  {
  }

  lemma HeaderSizes(w: Vol)
    ensures var s := SaveHeader(w); s == w.(disk := s.disk) && |s.disk| == |w.disk|
  {
  }
}
