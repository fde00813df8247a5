/** When `inject` of extra/xcfs_inject.py goes through, and the directory it puts a new file in. */
module InjectOutcomes {
  import opened XcfsTypes
  import opened XcfsTree
  import opened XcfsVolume
  import opened XcfsOutcomes
  import opened InjectVolume
  import opened InjectLaws
  import opened Paths

  /** That many sectors in a row are free in the data area. */
  ghost predicate HasRun(v: Vol, n: nat) {
    exists k: nat :: k + n <= v.hdr.total - v.lay.dataStart && ClearRun(v.bits, k, n)
  }

  /** A file, neither protected nor read-only, with room in its own sectors or else in others. */
  ghost predicate Overwritable(v: Vol, u: nat, size: nat)
    requires u < |v.ents|
  {
    var e := v.ents[u];
    && e.kind == 1 && e.flags / 4 % 2 == 0 && e.flags / 16 % 2 == 0
    && if Count(size) <= Count(e.size) then e.start + Count(size) <= v.hdr.total else HasRun(v, Count(size))
  }

  /** Slot `d` is the first for the directory that the path lies in, and is a directory. */
  ghost predicate IsHome(v: Vol, norm: string, d: nat)
    requires v.hdr.count <= |v.ents|
  {
    && d < v.hdr.count && v.ents[d].kind == 2 && LiesIn(norm, v.ents[d].path)
    && forall i :: 0 <= i < d ==> !LiesIn(norm, v.ents[i].path)
  }

  ghost predicate Creatable(v: Vol, norm: string, size: nat)
    requires v.hdr.count <= |v.ents|
  {
    && v.hdr.count < v.lay.maxFiles && Absent(v, norm) && HasRun(v, Count(size))
    && (norm == "/" || exists d: nat :: IsHome(v, norm, d))
  }

  lemma RunIff(v: Vol, n: nat)
    requires v.lay.dataStart <= v.hdr.total && v.hdr.total - v.lay.dataStart <= |v.bits|
    ensures FreeRun(v, n).Some? <==> HasRun(v, n)
  {
  }

  lemma OverwriteIff(v: Vol, u: nat, data: seq<Byte>, flags: nat)
    requires u < |v.ents| && v.lay.dataStart <= v.hdr.total && v.hdr.total - v.lay.dataStart <= |v.bits|
    ensures OverwriteOn(v, u, data, flags).Some? <==> Overwritable(v, u, |data|)
  {
    hide Count, FreeRun, HasRun;
    RunIff(v, Count(|data|));
  }

  lemma ParentIff(v: Vol, norm: string)
    requires v.hdr.count <= |v.ents| && norm != ""
    ensures ParentOf(v, norm).Some? <==> norm == "/" || exists d: nat :: IsHome(v, norm, d)
  {
    assert forall i :: 0 <= i < v.hdr.count ==> TableOf(v)[i] == v.ents[i];
    if norm == "/" {
      RootParent(TableOf(v));
    } else {
      hide LiesIn, FindParent;
      FindParentLies(TableOf(v), norm);
      match FindParent(TableOf(v), norm)
      case None =>
      case Some(d) =>
        assert forall k: nat :: IsHome(v, norm, k) ==> k == d;
        assert v.ents[d].kind == 2 ==> IsHome(v, norm, d);
    }
  }

  /**
   `inject` goes through exactly when the path fits, the size fits 32 bits, and either the path names a file
   that may be overwritten and has room, or it names nothing and there are a slot, a directory and room for it.
   */
  lemma InjectIff(v: Vol, path: string, data: seq<Byte>, flags: nat)
    requires v.hdr.count <= |v.ents| && v.lay.dataStart <= v.hdr.total && v.hdr.total - v.lay.dataStart <= |v.bits|
    ensures InjectOn(v, path, data, flags).Some?
            <==> && |Norm(path)| < 248 && |data| < 0x1_0000_0000
                 && ((exists u: nat :: FirstAt(v, Norm(path), u) && Overwritable(v, u, |data|))
                     || Creatable(v, Norm(path), |data|))
  {
    var norm := Norm(path);
    match Find(TableOf(v), norm)
    case Some(u) =>
      FindIff(v, norm, u);
      OverwriteIff(v, u, data, flags);
      hide Norm, Find, OverwriteOn, CreateFileOn, Overwritable;
      assert forall w: nat :: FirstAt(v, norm, w) ==> w == u;
      assert !Absent(v, norm);
    case None =>
      FindIff(v, norm, 0);
      assert norm != "";
      hide Norm, Find, OverwriteOn, Overwritable, FreeRun, ParentOf, HasRun, Count;
      ParentIff(v, norm);
      RunIff(v, Count(|data|));
  }

  /** A successful `inject` leaves every entry but the root in the directory that it names as its parent. */
  lemma InjectedLies(v: Vol, path: string, data: seq<Byte>, flags: nat)
    requires Healthy(v) && TreeOk(TableOf(v)) && InjectOn(v, path, data, flags).Some?
    ensures var w := InjectOn(v, path, data, flags).value;
            w.hdr.count <= |w.ents| && forall i :: 1 <= i < w.hdr.count ==>
              var par := w.ents[i].parent;
              par < w.hdr.count && w.ents[par].kind == DIR && LiesIn(w.ents[i].path, w.ents[par].path)
  {
    InjectKeepsTree(v, path, data, flags);
    var w := InjectOn(v, path, data, flags).value;
    hide InjectOn, TreeOk, LiesIn;
    assert forall i :: 0 <= i < w.hdr.count ==> TableOf(w)[i] == w.ents[i];
    forall i | 1 <= i < w.hdr.count
      ensures var par := w.ents[i].parent;
              par < w.hdr.count && w.ents[par].kind == DIR && LiesIn(w.ents[i].path, w.ents[par].path)
    {
      TreeLies(TableOf(w), i);
    }
  }

  lemma WithoutProtected(flags: nat)
    ensures var f := flags - (if HasFlag(flags, PROTECTED) then PROTECTED else 0);
            f % 4 == flags % 4 && f / 4 % 2 == 0 && f / 8 == flags / 8
  {
    var q, r := flags / 8, flags % 8;
    Octet(q, r);
    if r >= 4 {
      Octet(q, r - 4);
    }
  }

  lemma Octet(q: nat, r: nat)
    requires r < 8
    ensures var x := 8 * q + r; x % 4 == r % 4 && x / 4 % 2 == r / 4 && x / 8 == q
  {
    assert (8 * q + r) / 4 == 2 * q + r / 4;
  }

  /** A new file gets the last slot, the size of the data, and the flags given without the protected one. */
  lemma CreatedEntry(v: Vol, path: string, data: seq<Byte>, flags: nat)
    requires Healthy(v) && Absent(v, Norm(path)) && InjectOn(v, path, data, flags).Some?
    ensures var w, n := InjectOn(v, path, data, flags).value, v.hdr.count;
            && w.hdr == v.hdr.(count := n + 1) && n < |w.ents| && (forall i :: 0 <= i < n ==> w.ents[i] == v.ents[i])
            && w.ents[n].path == Norm(path) && w.ents[n].kind == 1 && w.ents[n].size == |data|
            && w.ents[n].flags % 4 == flags % 4 && w.ents[n].flags / 4 % 2 == 0 && w.ents[n].flags / 8 == flags / 8
  {
    FindIff(v, Norm(path), 0);
    assert v.hdr.count <= |v.ents|;
    WithoutProtected(flags);
    hide Find, Norm, Count, FreeRun, ParentOf, Healthy, Mark, WriteSectors, HasFlag, BitmapSlice, Absent, OverwriteOn;
  }

  /** What loads is a volume of this format whose data area starts inside it and whose metadata are on the disk. */
  lemma LoadedIs(lay: Layout, disk: seq<Sector>)
    requires LoadOn(lay, disk).Some?
    ensures var w := LoadOn(lay, disk).value;
            && w.lay == lay && w.disk == disk && w.hdr.magic == 0x58434653 && w.hdr.version == 2
            && w.hdr.count <= lay.maxFiles && w.hdr.count <= |w.ents| && lay.dataStart < w.hdr.total <= |disk|
            && lay.meta + 1 + |w.ents| <= |disk| && BitmapStart(lay) + BitmapSectors(w.hdr.total) <= |disk|
  {
  }
}
