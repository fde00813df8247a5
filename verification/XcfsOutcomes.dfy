/** When the calls of src/drivers/fs/xcfs.c go through, said of the table, the bitmap and the bytes on the disk. */
module XcfsOutcomes {
  import opened Powers
  import opened XcfsTypes
  import opened XcfsContent
  import opened XcfsTree
  import opened XcfsVolume
  import opened XcfsLaws
  import opened Options

  // ---------------------------------------------------------------- lookup

  /** Slot `u` is the first used one with that path. */
  ghost predicate FirstAt(v: Vol, norm: string, u: nat)
    requires v.hdr.count <= |v.ents|
  {
    u < v.hdr.count && v.ents[u].path == norm && forall i :: 0 <= i < u ==> v.ents[i].path != norm
  }

  ghost predicate Absent(v: Vol, norm: string)
    requires v.hdr.count <= |v.ents|
  {
    forall i :: 0 <= i < v.hdr.count ==> v.ents[i].path != norm
  }

  lemma FindIff(v: Vol, norm: string, u: nat)
    requires v.hdr.count <= |v.ents|
    ensures Find(TableOf(v), norm) == Some(u) <==> FirstAt(v, norm, u)
    ensures Find(TableOf(v), norm) == None <==> Absent(v, norm)
  {
    assert forall i :: 0 <= i < v.hdr.count ==> TableOf(v)[i] == v.ents[i];
  }

  /** A flag is set exactly when its bit is. */
  lemma FlagIsBit(low: nat, bit: nat, high: nat, flag: nat)
    requires low < flag && bit < 2
    ensures HasFlag(low + flag * (bit + 2 * high), flag) <==> bit == 1
  {
    QuotientRemainder(low + flag * (bit + 2 * high), flag, bit + 2 * high, low);
  }

  // ---------------------------------------------------------------- xcfs_mkdir and xcfs_create

  /** There is a free slot, no entry with that path, and an entry for the directory that the path lies in. */
  ghost predicate Admissible(v: Vol, norm: string)
    requires v.hdr.count <= |v.ents|
  {
    && v.hdr.count < v.lay.maxFiles && norm != "" && Absent(v, norm)
    && (norm == "/" || exists d :: 0 <= d < v.hdr.count && LiesIn(norm, v.ents[d].path))
  }

  /** `xcfs_mkdir` goes through exactly then. */
  lemma MkdirIff(v: Vol, norm: string)
    requires Roomy(v)
    ensures MkdirOn(v, norm).1 <==> Admissible(v, norm)
    ensures Admit(v, norm).Some? <==> Admissible(v, norm)
  {
    assert forall i :: 0 <= i < v.hdr.count ==> TableOf(v)[i] == v.ents[i];
    hide LiesIn, FindParent, Find;
    FindIff(v, norm, 0);
    if norm != "" && norm != "/" {
      FindParentLies(TableOf(v), norm);
    } else {
      assert FindParent(TableOf(v), "") == None && FindParent(TableOf(v), "/") == Some(0) by { RootParent(TableOf(v)); }
    }
  }

  lemma RootParent(t: Table)
    ensures FindParent(t, "") == None && FindParent(t, "/") == Some(0)
  {
  }

  /** `xcfs_create` goes through exactly when, besides, that many clear bits stand in a row in the data area. */
  lemma CreateIff(v: Vol, norm: string, size: nat)
    requires Roomy(v)
    ensures CreateOn(v, norm, size).1
            <==> Admissible(v, norm) &&
                 var n := SectorsOf(size);
                 exists k: nat :: k + n <= v.hdr.total - v.lay.dataStart && ClearRun(v.bits, k, n)
  {
    hide Admissible, SectorsOf, ClearRun;
    MkdirIff(v, norm);
    PlaceIsFirst(v, size);
  }

  // ---------------------------------------------------------------- xcfs_delete

  /**
   `xcfs_delete` removes slot `u` exactly when it is the first with that path, not the root, not protected,
   and no directory with an entry that names it as its parent.
   */
  lemma DeleteIff(v: Vol, norm: string, u: nat)
    requires v.hdr.count <= |v.ents|
    ensures Doomed(v, norm) == Some(u)
            <==> && FirstAt(v, norm, u) && norm != "/" && v.ents[u].flags / 4 % 2 == 0
                 && (v.ents[u].kind == 2 ==> forall i :: 0 <= i < v.hdr.count && i != u ==> v.ents[i].parent != u)
  {
    FindIff(v, norm, u);
    hide Find;
    if FirstAt(v, norm, u) {
      assert forall i :: 0 <= i < v.hdr.count ==> TableOf(v)[i] == v.ents[i];
    }
  }

  // ---------------------------------------------------------------- xcfs_write

  /** `xcfs_write` goes through exactly on a file that is not read-only and has room for the data. */
  lemma WriteIff(v: Vol, norm: string, data: seq<Byte>)
    requires Roomy(v)
    ensures WriteOn(v, norm, data).1
            <==> exists u: nat :: && FirstAt(v, norm, u) && v.ents[u].kind == 1
                             && v.ents[u].flags / 16 % 2 == 0 && |data| <= v.ents[u].size
  {
    match Find(TableOf(v), norm)
    case None => FindIff(v, norm, 0);
    case Some(u) =>
      FindIff(v, norm, u);
      hide Find;
      assert forall w: nat :: FirstAt(v, norm, w) ==> w == u;
  }

  // ---------------------------------------------------------------- xcfs_read

  lemma {:induction false} FlatAt(c: seq<Sector>, j: nat)
    requires IsDataDisk(c) && j < 512 * |c|
    ensures |Flat(c)| == 512 * |c| && c[j / 512].Data? && Flat(c)[j] == c[j / 512].bytes[j % 512]
  {
    FlatLength(c);
    FlatLength(c[1..]);
    if j >= 512 {
      FlatAt(c[1..], j - 512);
    }
  }

  /** The sectors of a file are data sectors of 512 bytes, and enough for its size. */
  lemma ContentIsData(v: Vol, u: nat)
    requires VolOk(v) && u < v.hdr.count && v.ents[u].kind == 1
    ensures var e := TableOf(v)[u];
            && e.start + SectorsOf(e.size) <= |v.disk| && e.size <= 512 * SectorsOf(e.size)
            && IsDataDisk(Content(e, v.disk))
            && forall i :: 0 <= i < SectorsOf(e.size) ==> Content(e, v.disk)[i] == v.disk[e.start + i]
  {
    hide SectorsOf;
    assert Honest(v.ents[u]);
    assert TableOf(v)[u] == v.ents[u];
  }

  /** Byte `j` of file `e` on the disk is `x`. */
  predicate HasByte(v: Vol, e: Entry, j: nat, x: Byte) {
    var s := e.start + j / 512;
    s < |v.disk| && v.disk[s].Data? && |v.disk[s].bytes| == 512 && v.disk[s].bytes[j % 512] == x
  }

  lemma ReadPrefix(v: Vol, norm: string, u: nat, size: nat)
    requires VolOk(v) && OnDisk(TableOf(v), |v.disk|) && FirstAt(v, norm, u) && v.ents[u].kind == 1
    ensures var e := v.ents[u]; var n := if size < e.size then size else e.size;
            && e.start + SectorsOf(e.size) <= |v.disk| && n <= |Flat(Content(e, v.disk))|
            && ReadOn(v, norm, size) == Some(Flat(Content(e, v.disk))[..n])
  {
    FindIff(v, norm, u);
    ContentIsData(v, u);
    assert TableOf(v)[u] == v.ents[u];
    FlatLength(Content(v.ents[u], v.disk));
    hide SectorsOf, Find, Flat, Content, VolOk, OnDisk, FirstAt, IsDataDisk;
  }

  lemma ContentByte(v: Vol, u: nat, j: nat)
    requires VolOk(v) && u < v.hdr.count && v.ents[u].kind == 1
    requires v.ents[u].start + SectorsOf(v.ents[u].size) <= |v.disk| && j < v.ents[u].size
    ensures j < |Flat(Content(v.ents[u], v.disk))| && HasByte(v, v.ents[u], j, Flat(Content(v.ents[u], v.disk))[j])
  {
    ContentIsData(v, u);
    assert TableOf(v)[u] == v.ents[u];
    hide SectorsOf, Flat, Content, VolOk;
    FlatAt(Content(v.ents[u], v.disk), j);
  }

  /** `xcfs_read` of a file returns its bytes from the front, as many as asked for and no more than it has. */
  lemma ReadIs(v: Vol, norm: string, u: nat, size: nat)
    requires VolOk(v) && OnDisk(TableOf(v), |v.disk|) && FirstAt(v, norm, u) && v.ents[u].kind == 1
    ensures var e, r := v.ents[u], ReadOn(v, norm, size);
            && r.Some? && |r.value| == (if size < e.size then size else e.size)
            && forall j :: 0 <= j < |r.value| ==> HasByte(v, e, j, r.value[j])
  {
    ReadPrefix(v, norm, u, size);
    hide SectorsOf, Find, Flat, Content, VolOk, OnDisk, HasByte, ReadOn;
    forall j | 0 <= j < |ReadOn(v, norm, size).value|
      ensures HasByte(v, v.ents[u], j, ReadOn(v, norm, size).value[j])
    {
      ContentByte(v, u, j);
    }
  }

  /** It returns nothing exactly when the path is absent or its first entry is no file. */
  lemma ReadFailsIff(v: Vol, norm: string, size: nat)
    requires v.hdr.count <= |v.ents| && OnDisk(TableOf(v), |v.disk|)
    ensures ReadOn(v, norm, size).None?
            <==> Absent(v, norm) || exists u: nat :: FirstAt(v, norm, u) && v.ents[u].kind != 1
  {
    match Find(TableOf(v), norm)
    case None => FindIff(v, norm, 0);
    case Some(u) =>
      FindIff(v, norm, u);
      hide Find, Flat, Content;
      assert forall w: nat :: FirstAt(v, norm, w) ==> w == u;
  }

  lemma CreatedFile(v: Vol, norm: string, size: nat)
    requires VolOk(v) && Exact(v) && size <= 0xFFFF_FE00 && CreateOn(v, norm, size).1
    ensures var v', u := CreateOn(v, norm, size).0, v.hdr.count;
            && VolOk(v') && OnDisk(TableOf(v'), |v'.disk|) && FirstAt(v', norm, u)
            && v'.ents[u].kind == 1 && v'.ents[u].size == size <= 512 * SectorsOf(size)
            && v'.ents[u].start + SectorsOf(size) <= |v'.disk|
            && forall x :: v'.ents[u].start <= x < v'.ents[u].start + SectorsOf(size) ==> v'.disk[x] == Zeros()
  {
    CreateLaw(v, norm, size);
    MkdirIff(v, norm);
    HonestIff(size);
    var v' := CreateOn(v, norm, size).0;
    ExtentsOnDisk(v');
    var e, u := NewFile(v, norm, size), v.hdr.count;
    hide SectorsOf, VolOk, Exact, CreateOn, MkdirOn, Admit, Place, DataKept, OnDisk;
    assert TableOf(v')[u] == e && v'.ents[u] == e;
    assert FirstAt(v', norm, u) by {
      assert forall i :: 0 <= i < u ==> v'.ents[i] == TableOf(v')[i] == TableOf(v)[i] == v.ents[i];
    }
    forall x | e.start <= x < e.start + SectorsOf(size)
      ensures v'.disk[x] == Zeros()
    {
      assert Content(e, v'.disk)[x - e.start] == Zeros();
    }
  }

  /** A file that was created and never written reads as zeros. */
  lemma CreatedReadsZeros(v: Vol, norm: string, size: nat, n: nat)
    requires VolOk(v) && Exact(v) && size <= 0xFFFF_FE00 && CreateOn(v, norm, size).1
    ensures var v' := CreateOn(v, norm, size).0;
            && VolOk(v') && OnDisk(TableOf(v'), |v'.disk|)
            && ReadOn(v', norm, n) == Some(seq(if n < size then n else size, _ => 0))
  {
    CreatedFile(v, norm, size);
    var v', u := CreateOn(v, norm, size).0, v.hdr.count;
    hide SectorsOf, VolOk, Exact, CreateOn, ReadOn, OnDisk, FirstAt;
    ReadIs(v', norm, u, n);
    var r := ReadOn(v', norm, n).value;
    forall j | 0 <= j < |r|
      ensures r[j] == 0
    {
      assert HasByte(v', v'.ents[u], j, r[j]) && v'.disk[v'.ents[u].start + j / 512] == Zeros();
    }
    assert r == seq(if n < size then n else size, _ => 0);
  }
}
