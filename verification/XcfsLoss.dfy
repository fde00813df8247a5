/** A run from a fresh volume in which two deletions overwrite a third file. */
module XcfsLoss {
  import opened XcfsTypes
  import opened XcfsCompact
  import opened XcfsContent
  import opened XcfsTree
  import opened XcfsVolume
  import opened XcfsLaws
  import opened XcfsDelete
  import opened XcfsRuns
  import opened Options

  const NAMES: seq<string> := ["/a", "/b", "/c", "/d"]

  function OneSector(path: string, start: nat): Entry {
    Entry(path, start, 512, 0, FILE, 0)
  }

  /** Four files of one sector each, created one after the other. */
  function FourFiles(lo: nat): Table {
    [Entry("/", 0, 0, 0, DIR, PROTECTED), OneSector("/a", lo), OneSector("/b", lo + 1), OneSector("/c", lo + 2),
     OneSector("/d", lo + 3)]
  }

  /** The table after the first file is deleted: the last one has moved into its slot. */
  function ThreeFiles(lo: nat): Table {
    [Entry("/", 0, 0, 0, DIR, PROTECTED), OneSector("/d", lo + 2), OneSector("/b", lo), OneSector("/c", lo + 1)]
  }

  function TwoFiles(lo: nat): Table {
    [Entry("/", 0, 0, 0, DIR, PROTECTED), OneSector("/d", lo + 1), OneSector("/c", lo)]
  }

  lemma FirstDeletion(lo: nat)
    ensures Ascending(FourFiles(lo)) && SafeDelete(FourFiles(lo), 1)
    ensures Removed(Compact(FourFiles(lo), 1), 1) == ThreeFiles(lo)
  {
    var t := FourFiles(lo);
    assert SectorsOf(512) == 1;
    hide SectorsOf;
    var g := GapAt(t, 1);
    assert forall i :: 0 <= i < 5 && Moves(t, g, i) ==> Shifted(t, g, i).start == t[i].start - 1;
  }

  lemma SecondDeletion(lo: nat)
    requires lo > 0
    ensures !Ascending(ThreeFiles(lo)) && !SafeDelete(ThreeFiles(lo), 2)
    ensures Removed(Compact(ThreeFiles(lo), 2), 2) == TwoFiles(lo)
  {
    var t := ThreeFiles(lo);
    assert SectorsOf(512) == 1;
    hide SectorsOf;
    var g := GapAt(t, 2);
    assert Moves(t, g, 1) && Moves(t, g, 3) && Shifted(t, g, 1).start == lo + 1 && Shifted(t, g, 3).start == lo;
    assert !ExtentsApart(Shifted(t, g, 1), t[3]);
    assert !Safe(t, g);
    assert IsFile(t[1]) && IsFile(t[2]) && t[1].start >= t[2].start;
  }

  /**
   Deleting the first file moves the last one into its slot, out of order; deleting the second file
   then moves that one onto a file still waiting to be moved.
   */
  lemma SecondDeleteIsUnsafe(lo: nat)
    requires lo > 0
    ensures Ascending(FourFiles(lo)) && SafeDelete(FourFiles(lo), 1)
    ensures var t := Removed(Compact(FourFiles(lo), 1), 1);
            |t| == 4 && t[2].path == "/b" && !Ascending(t) && !SafeDelete(t, 2)
  {
    FirstDeletion(lo);
    SecondDeletion(lo);
  }

  // ---------------------------------------------------------------- four creations

  /** A coherent volume with room for the four files, whose table holds the first `k` of them. */
  ghost predicate Filled(v: Vol, k: nat) {
    && k <= 4 && VolOk(v) && Exact(v) && Synced(v) && v.lay.maxFiles >= 5 && v.hdr.total >= v.lay.dataStart + 4
    && TableOf(v) == FourFiles(v.lay.dataStart)[..k + 1]
  }

  lemma RootIsParent(t: Table, k: nat)
    requires k < 4 && t != [] && t[0].path == "/"
    ensures FindParent(t, NAMES[k]) == Some(0)
  {
    assert LastSlash(NAMES[k], 1) == LastSlash(NAMES[k], 0) == 0;
  }

  lemma NameIsNew(lo: nat, k: nat)
    requires k < 4
    ensures Find(FourFiles(lo)[..k + 1], NAMES[k]).None?
  {
    var t := FourFiles(lo);
    assert |t[0].path| == 1 && forall i :: 1 <= i < 5 ==> |t[i].path| == 2 && t[i].path == NAMES[i - 1];
    assert NAMES[0][1] == 'a' && NAMES[1][1] == 'b' && NAMES[2][1] == 'c' && NAMES[3][1] == 'd';
  }

  lemma OwnersOf(lo: nat, k: nat, x: nat)
    requires k <= 4
    ensures OwnedBut(FourFiles(lo)[..k + 1], -1, x) <==> lo <= x < lo + k
  {
    var t := FourFiles(lo)[..k + 1];
    assert SectorsOf(512) == 1;
    hide SectorsOf;
    if lo <= x < lo + k {
      assert t[x - lo + 1] == OneSector(NAMES[x - lo], x);
      assert IsFile(t[x - lo + 1]) && InExtent(t[x - lo + 1], x);
    }
  }

  /** First fit puts file `k` behind the `k` files that are there. */
  lemma PlaceNext(v: Vol, k: nat)
    requires Filled(v, k) && k < 4
    ensures Place(v, 512) == Some(v.lay.dataStart + k)
  {
    var lo := v.lay.dataStart;
    assert SectorsOf(512) == 1;
    hide SectorsOf, FourFiles;
    PlaceIsFirst(v, 512);
    forall i: nat | i < |v.bits|
      ensures v.bits[i] <==> i < k
    {
      OwnersOf(lo, k, lo + i);
    }
    assert ClearRun(v.bits, k, 1) && k + 1 <= v.hdr.total - lo;
    match Place(v, 512)
    case None =>
    case Some(s) => assert ClearRun(v.bits, s - lo, 1) && !v.bits[s - lo];
  }

  lemma CreateNext(v: Vol, k: nat)
    requires Filled(v, k) && k < 4
    ensures var v' := CreateOn(v, NAMES[k], 512).0; Filled(v', k + 1) && v'.lay == v.lay
  {
    assert Roomy(v);
    AdmitNext(v, k);
    PlaceNext(v, k);
    var e := NewFile(v, NAMES[k], 512);
    assert e == OneSector(NAMES[k], v.lay.dataStart + k);
    hide Place, FourFiles, Admit, Shape, Exact, Extents, SectorsOf, CreateOn, Synced, DataKept, NewFile, TableOf;
    hide Content;
    CreateLaw(v, NAMES[k], 512);
    CreateKeepsLayout(v, NAMES[k], 512);
    FilledNext(v, CreateOn(v, NAMES[k], 512).0, k);
  }

  lemma FilledNext(v: Vol, v': Vol, k: nat)
    requires Filled(v, k) && k < 4 && VolOk(v') && Exact(v') && Synced(v')
    requires v'.lay == v.lay && v'.hdr.total == v.hdr.total
    requires TableOf(v') == TableOf(v) + [OneSector(NAMES[k], v.lay.dataStart + k)]
    ensures Filled(v', k + 1)
  {
    hide Exact, Extents, Shape;
    FilesNext(v.lay.dataStart, k);
  }

  lemma AdmitNext(v: Vol, k: nat)
    requires Filled(v, k) && k < 4
    ensures Admit(v, NAMES[k]) == Some(0)
  {
    hide Find, FindParent, Exact, Extents;
    RootIsParent(TableOf(v), k);
    NameIsNew(v.lay.dataStart, k);
    assert v.hdr.count == |TableOf(v)| == k + 1;
  }

  lemma FilesNext(lo: nat, k: nat)
    requires k < 4
    ensures FourFiles(lo)[..k + 1] + [OneSector(NAMES[k], lo + k)] == FourFiles(lo)[..k + 2]
  {
  }

  lemma CreateKeepsLayout(v: Vol, p: string, size: nat)
    requires Roomy(v)
    ensures var v' := CreateOn(v, p, size).0; v'.lay == v.lay && v'.hdr.total == v.hdr.total
  {
    hide SectorsOf, Find, FindParent, FirstRun;
  }

  // ---------------------------------------------------------------- four writes

  /** Four sectors' worth of data. */
  predicate Blocks(datas: seq<seq<Byte>>) {
    |datas| == 4 && forall i :: 0 <= i < 4 ==> |datas[i]| == 512
  }

  /** The sectors of the first `m` files hold their data. */
  predicate Holds(v: Vol, datas: seq<seq<Byte>>, m: nat)
    requires m <= |datas|
  {
    v.lay.dataStart + m <= |v.disk| && forall i :: 0 <= i < m ==> v.disk[v.lay.dataStart + i] == Data(datas[i])
  }

  lemma FindFile(lo: nat, m: nat)
    requires m < 4
    ensures Find(FourFiles(lo), NAMES[m]) == Some(m + 1)
  {
    var t := FourFiles(lo);
    assert |t[0].path| == 1 && forall i :: 1 <= i < 5 ==> |t[i].path| == 2 && t[i].path == NAMES[i - 1];
    assert NAMES[0][1] == 'a' && NAMES[1][1] == 'b' && NAMES[2][1] == 'c' && NAMES[3][1] == 'd';
    FindUnique(t, m + 1);
  }

  lemma FilledTable(v: Vol)
    requires Filled(v, 4)
    ensures v.hdr.count == 5 && TableOf(v) == FourFiles(v.lay.dataStart)
    ensures forall i :: 0 <= i < 5 ==> v.ents[i] == FourFiles(v.lay.dataStart)[i]
  {
    hide Exact, Extents;
    assert forall i :: 0 <= i < 5 ==> TableOf(v)[i] == v.ents[i];
  }

  /** A write of 512 bytes to a file of one sector fills the sector with them. */
  lemma SectorWritten(v: Vol, m: nat, data: seq<Byte>)
    requires Filled(v, 4) && m < 4 && |data| == 512
    ensures var (v', ok) := WriteOn(v, NAMES[m], data);
            && ok && v'.lay == v.lay && v'.hdr == v.hdr
            && v.lay.dataStart + m < |v'.disk| && v'.disk[v.lay.dataStart + m] == Data(data)
  {
    FilledTable(v);
    FindFile(v.lay.dataStart, m);
    assert SectorsOf(512) == 1 && data[0..512] == data;
    assert v.ents[m + 1] == OneSector(NAMES[m], v.lay.dataStart + m);
    hide SectorsOf, Find, FourFiles, Exact, Extents;
  }

  lemma WriteNext(v: Vol, datas: seq<seq<Byte>>, m: nat)
    requires Filled(v, 4) && Blocks(datas) && m < 4 && Holds(v, datas, m)
    ensures var v' := WriteOn(v, NAMES[m], datas[m]).0; Filled(v', 4) && v'.lay == v.lay && Holds(v', datas, m + 1)
  {
    FilledTable(v);
    FindFile(v.lay.dataStart, m);
    SectorWritten(v, m, datas[m]);
    assert SectorsOf(512) == 1 && TableOf(v)[m + 1].start == v.lay.dataStart + m && TableOf(v)[m + 1].size == 512;
    hide SectorsOf, Find, FourFiles, Exact, Extents, Shape, WriteOn, Synced, ReadOn, OnDisk, TableOf, Holds, Blocks;
    WriteLaw(v, NAMES[m], datas[m]);
    HoldsNext(v, WriteOn(v, NAMES[m], datas[m]).0, datas, m);
  }

  lemma HoldsNext(v: Vol, v': Vol, datas: seq<seq<Byte>>, m: nat)
    requires m < |datas| && Holds(v, datas, m) && DataKept(v, v', v.lay.dataStart + m, 1) && v'.lay == v.lay
    requires v.lay.dataStart + m < |v'.disk| && v'.disk[v.lay.dataStart + m] == Data(datas[m])
    ensures Holds(v', datas, m + 1)
  {
  }

  // ---------------------------------------------------------------- two deletions

  /** One slot of the compaction loop, for files of one sector. */
  lemma StageStep(disk: seq<Sector>, t: Table, g: Gap, k: nat, x: nat)
    requires 0 < k <= |t| && OnDisk(t, |disk|) && x < |disk| && (IsFile(t[k - 1]) ==> t[k - 1].size == 512)
    ensures var prev := StageDisk(disk, t, g, k - 1);
            StageDisk(disk, t, g, k)[x]
              == if Moves(t, g, k - 1) && x == Shifted(t, g, k - 1).start then prev[t[k - 1].start] else prev[x]
  {
    assert SectorsOf(512) == 1;
  }

  /** The files behind the first one move down by one sector each. */
  predicate MovesDown(t: Table, g: Gap, lo: nat) {
    && |t| == 5 && (forall i :: 0 <= i < 5 && IsFile(t[i]) ==> t[i].size == 512)
    && !Moves(t, g, 0) && !Moves(t, g, 1) && Moves(t, g, 2) && Moves(t, g, 3) && Moves(t, g, 4)
    && Shifted(t, g, 2).start == lo && Shifted(t, g, 3).start == lo + 1 && Shifted(t, g, 4).start == lo + 2
    && t[3].start == lo + 2 && t[4].start == lo + 3
  }

  lemma FourMoveDown(lo: nat)
    ensures MovesDown(FourFiles(lo), GapAt(FourFiles(lo), 1), lo)
  {
    assert SectorsOf(512) == 1;
    hide SectorsOf;
  }

  lemma FirstMoves(disk: seq<Sector>, t: Table, g: Gap, lo: nat)
    requires MovesDown(t, g, lo) && OnDisk(t, |disk|) && lo + 4 <= |disk|
    ensures StageDisk(disk, t, g, 5)[lo + 1] == disk[lo + 2]
    ensures StageDisk(disk, t, g, 5)[lo + 2] == disk[lo + 3]
  {
    hide StageDisk, SectorsOf, Moves, Shifted;
    Stays(disk, t, g, 3, lo + 2);
    StageStep(disk, t, g, 4, lo + 1);
    StageStep(disk, t, g, 5, lo + 1);
    Stays(disk, t, g, 4, lo + 3);
    StageStep(disk, t, g, 5, lo + 2);
  }

  /** A sector that none of the first `k` slots moves onto stays as it is. */
  lemma {:induction false} Stays(disk: seq<Sector>, t: Table, g: Gap, k: nat, x: nat)
    requires k <= |t| && OnDisk(t, |disk|) && x < |disk|
    requires forall i :: 0 <= i < k && IsFile(t[i]) ==> t[i].size == 512
    requires forall i :: 0 <= i < k && Moves(t, g, i) ==> x != Shifted(t, g, i).start
    ensures StageDisk(disk, t, g, k)[x] == disk[x]
    decreases k
  {
    if k > 0 {
      StageStep(disk, t, g, k, x);
      hide Shifted, Moves, StageDisk;
      Stays(disk, t, g, k - 1, x);
    } else {
      assert StageDisk(disk, t, g, 0) == disk;
    }
  }

  /** The file of slot 1 moves onto that of slot 3, which moves after it. */
  predicate MovesOnto(t: Table, g: Gap, lo: nat) {
    && |t| == 4 && (forall i :: 0 <= i < 4 && IsFile(t[i]) ==> t[i].size == 512)
    && !Moves(t, g, 0) && Moves(t, g, 1) && !Moves(t, g, 2) && Moves(t, g, 3)
    && Shifted(t, g, 1).start == lo + 1 && Shifted(t, g, 3).start == lo && t[1].start == lo + 2 && t[3].start == lo + 1
  }

  lemma ThreeMoveOnto(lo: nat)
    ensures MovesOnto(ThreeFiles(lo), GapAt(ThreeFiles(lo), 2), lo)
  {
    assert SectorsOf(512) == 1;
    hide SectorsOf;
  }

  lemma SecondMoves(disk: seq<Sector>, t: Table, g: Gap, lo: nat)
    requires MovesOnto(t, g, lo) && OnDisk(t, |disk|) && lo + 4 <= |disk|
    ensures StageDisk(disk, t, g, 4)[lo] == disk[lo + 2]
  {
    hide StageDisk, SectorsOf, Moves, Shifted;
    StageStep(disk, t, g, 4, lo);
    StageStep(disk, t, g, 3, lo + 1);
    StageStep(disk, t, g, 2, lo + 1);
    Stays(disk, t, g, 1, lo + 2);
  }

  /** Table and data area after the file of slot `u` is deleted. */
  lemma FileDeleted(v: Vol, u: nat)
    requires VolOk(v) && 0 < u < v.hdr.count && IsFile(v.ents[u])
    ensures OnDisk(TableOf(v), |v.disk|)
    ensures var v', t := DeleteSlot(v, u), TableOf(v);
            && VolOk(v') && v'.lay == v.lay && |v'.disk| == |v.disk| && TableOf(v') == Removed(Compact(t, u), u)
            && forall x :: v.lay.dataStart <= x < |v.disk| ==> v'.disk[x] == StageDisk(v.disk, t, GapAt(t, u), |t|)[x]
  {
    ExtentsOnDisk(v);
    OkIsFramed(v);
    assert TableOf(v)[u] == v.ents[u];
    hide Shape, Extents, DeleteSlot, Compact, Removed, StageBits, StageDisk, SectorsOf, OnDisk, Framed;
    DeletedTable(v, u);
    DeletedDisk(v, u);
    DeleteKeepsOk(v, u);
  }

  lemma DeleteFirst(v: Vol, c: seq<Byte>, d: seq<Byte>)
    requires Filled(v, 4) && v.lay.dataStart + 4 <= |v.disk|
    requires v.disk[v.lay.dataStart + 2] == Data(c) && v.disk[v.lay.dataStart + 3] == Data(d)
    ensures OnDisk(TableOf(v), |v.disk|) && Doomed(v, "/a") == Some(1)
    ensures var v', lo := DeleteSlot(v, 1), v.lay.dataStart;
            && VolOk(v') && v'.lay == v.lay && TableOf(v') == ThreeFiles(lo) && lo + 4 <= |v'.disk|
            && v'.disk[lo + 1] == Data(c) && v'.disk[lo + 2] == Data(d)
  {
    var lo := v.lay.dataStart;
    FourTable(v);
    hide Filled, Find, FourFiles, ThreeFiles, Exact, Shape, Extents, DeleteSlot, Compact, Removed, StageDisk, SectorsOf;
    hide Doomed, SafeDelete, Ascending, MovesDown, GapAt, OnDisk;
    FirstDeletion(lo);
    FileDeleted(v, 1);
    FourMoveDown(lo);
    FirstMoves(v.disk, TableOf(v), GapAt(TableOf(v), 1), lo);
  }

  lemma FourTable(v: Vol)
    requires Filled(v, 4)
    ensures VolOk(v) && v.hdr.count == 5 && TableOf(v) == FourFiles(v.lay.dataStart) && |TableOf(v)| == 5
    ensures v.ents[1] == OneSector("/a", v.lay.dataStart) && Doomed(v, "/a") == Some(1)
  {
    FilledTable(v);
    FindFile(v.lay.dataStart, 0);
    hide Find, Shape, Extents, Exact;
  }

  lemma DeleteSecond(v: Vol, d: seq<Byte>)
    requires VolOk(v) && TableOf(v) == ThreeFiles(v.lay.dataStart) && v.lay.dataStart + 4 <= |v.disk|
    requires v.disk[v.lay.dataStart + 2] == Data(d)
    ensures OnDisk(TableOf(v), |v.disk|) && Doomed(v, "/b") == Some(2)
    ensures var v', lo := DeleteSlot(v, 2), v.lay.dataStart;
            && VolOk(v') && v'.lay == v.lay && TableOf(v') == TwoFiles(lo) && lo < |v'.disk| && v'.disk[lo] == Data(d)
  {
    var lo := v.lay.dataStart;
    ThreeTable(v);
    assert Doomed(v, "/b") == Some(2);
    hide Find, ThreeFiles, TwoFiles, Shape, Extents, DeleteSlot, Compact, Removed, StageDisk, SectorsOf, OnDisk;
    hide Doomed, SafeDelete, Ascending, MovesOnto, GapAt;
    SecondDeletion(lo);
    FileDeleted(v, 2);
    ThreeMoveOnto(lo);
    SecondMoves(v.disk, TableOf(v), GapAt(TableOf(v), 2), lo);
  }

  lemma ThreeTable(v: Vol)
    requires VolOk(v) && TableOf(v) == ThreeFiles(v.lay.dataStart)
    ensures v.hdr.count == 4 && v.ents[2] == OneSector("/b", v.lay.dataStart)
    ensures Find(TableOf(v), "/b") == Some(2) && v.lay.dataStart > 0
  {
    var t := TableOf(v);
    assert |t| == 4 && t[2] == v.ents[2];
    assert |t[0].path| == 1 && t[1].path[1] == 'd' && t[2].path[1] == 'b' && t[3].path[1] == 'c';
    assert DistinctPaths(t) by {
      assert forall i :: 1 <= i < 4 ==> |t[i].path| == 2;
    }
    FindUnique(t, 2);
  }

  /** Reading the third file finds the bytes of the fourth. */
  lemma ReadThird(v: Vol, d: seq<Byte>)
    requires VolOk(v) && TableOf(v) == TwoFiles(v.lay.dataStart) && v.lay.dataStart < |v.disk|
    requires v.disk[v.lay.dataStart] == Data(d) && |d| == 512
    ensures OnDisk(TableOf(v), |v.disk|) && ReadOn(v, "/c", 512) == Some(d)
  {
    ExtentsOnDisk(v);
    var t := TableOf(v);
    assert t[2] == OneSector("/c", v.lay.dataStart) && |t[0].path| == 1 && t[1].path[1] == 'd' && t[2].path[1] == 'c';
    FindUnique(t, 2);
    ReadSector(v, 2, "/c", d);
  }

  // ---------------------------------------------------------------- the run

  function Creations(): seq<Op> {
    seq(4, i requires 0 <= i < 4 => Create(NAMES[i], 512))
  }

  function Writes(datas: seq<seq<Byte>>): seq<Op>
    requires |datas| == 4
  {
    seq(4, i requires 0 <= i < 4 => Write(NAMES[i], datas[i]))
  }

  lemma {:induction false} RunConcat(v: Vol, a: seq<Op>, b: seq<Op>)
    ensures Run(v, a + b) == Run(Run(v, a), b)
    decreases |a|
  {
    if a == [] {
      assert a + b == b;
    } else {
      assert (a + b)[0] == a[0] && (a + b)[1..] == a[1..] + b;
      hide Step;
      RunConcat(Step(v, a[0]), a[1..], b);
    }
  }

  /** The last operation of a run. */
  lemma RunLast(v: Vol, ops: seq<Op>, op: Op)
    ensures Run(v, ops + [op]) == Step(Run(v, ops), op)
  {
    RunConcat(v, ops, [op]);
    hide Step;
    assert [op][1..] == [];
    assert Run(Run(v, ops), [op]) == Run(Step(Run(v, ops), op), []);
  }

  lemma {:induction false} RunOfCreations(v: Vol, k: nat)
    requires Filled(v, 0) && k <= 4
    ensures var w := Run(v, Creations()[..k]); Filled(w, k) && w.lay == v.lay
  {
    if k > 0 {
      RunOfCreations(v, k - 1);
      assert Creations()[..k] == Creations()[..k - 1] + [Create(NAMES[k - 1], 512)];
      var w := Run(v, Creations()[..k - 1]);
      hide Run, Filled, Creations, CreateOn, Framed;
      RunLast(v, Creations()[..k - 1], Create(NAMES[k - 1], 512));
      CreateNext(w, k - 1);
      FilledFramed(w, k - 1);
    }
  }

  lemma FilledFramed(v: Vol, k: nat)
    requires Filled(v, k)
    ensures Framed(v) && Roomy(v)
  {
    OkIsFramed(v);
  }

  lemma StepWrites(v: Vol, p: string, data: seq<Byte>)
    requires Filled(v, 4)
    ensures Roomy(v) && Step(v, Write(p, data)) == WriteOn(v, p, data).0
  {
    FilledFramed(v, 4);
    hide WriteOn;
  }

  lemma WritesNext(datas: seq<seq<Byte>>, m: nat)
    requires |datas| == 4 && 0 < m <= 4
    ensures |Writes(datas)| == 4 && |NAMES| == 4
    ensures Writes(datas)[..m] == Writes(datas)[..m - 1] + [Write(NAMES[m - 1], datas[m - 1])]
  {
  }

  lemma FourBlocks(datas: seq<seq<Byte>>)
    requires Blocks(datas)
    ensures |datas| == 4 == |Writes(datas)|
  {
  }

  lemma NoWrites(v: Vol, datas: seq<seq<Byte>>)
    requires Filled(v, 4) && Blocks(datas)
    ensures Run(v, Writes(datas)[..0]) == v && Holds(v, datas, 0)
  {
  }

  lemma {:induction false} RunOfWrites(v: Vol, datas: seq<seq<Byte>>, m: nat)
    requires Filled(v, 4) && Blocks(datas) && m <= 4
    ensures var w := Run(v, Writes(datas)[..m]); Filled(w, 4) && w.lay == v.lay && Holds(w, datas, m)
  {
    hide Run, Filled, Holds, Blocks, Writes, WriteOn, Framed, Step;
    FourBlocks(datas);
    if m == 0 {
      NoWrites(v, datas);
    } else {
      RunOfWrites(v, datas, m - 1);
      WritesNext(datas, m);
      var w := Run(v, Writes(datas)[..m - 1]);
      RunLast(v, Writes(datas)[..m - 1], Write(NAMES[m - 1], datas[m - 1]));
      WriteNext(w, datas, m - 1);
      StepWrites(w, NAMES[m - 1], datas[m - 1]);
    }
  }

  lemma FreshIsFilled(lay: Layout, disk: seq<Sector>, total: nat)
    requires Mountable(lay, disk, total) && lay.maxFiles >= 5 && total >= lay.dataStart + 4
    ensures Filled(FormatOn(lay, disk, total), 0) && FormatOn(lay, disk, total).lay == lay
  {
    FormatLaw(lay, disk, total);
    var v := FormatOn(lay, disk, total);
    hide Exact, Extents, Shape, Synced, TreeOk;
    assert TableOf(v)[0] == FourFiles(lay.dataStart)[..1][0];
  }

  lemma AfterDeletions(v: Vol, datas: seq<seq<Byte>>)
    requires Filled(v, 4) && Blocks(datas) && Holds(v, datas, 4)
    ensures var w := Step(v, Delete("/a")); Framed(w) && ReadOn(w, "/c", 512) == Some(datas[2])
    ensures var w := Step(Step(v, Delete("/a")), Delete("/b")); Framed(w) && ReadOn(w, "/c", 512) == Some(datas[3])
  {
    var c, d := datas[2], datas[3];
    assert v.lay.dataStart + 4 <= |v.disk|;
    assert v.disk[v.lay.dataStart + 2] == Data(c) && v.disk[v.lay.dataStart + 3] == Data(d);
    hide Filled, Holds, Framed, VolOk, Step, ReadOn, OnDisk, ThreeFiles, TwoFiles;
    StepFirst(v, c, d);
    ReadBefore(Step(v, Delete("/a")), c);
    StepSecond(Step(v, Delete("/a")), d);
    ReadThird(Step(Step(v, Delete("/a")), Delete("/b")), d);
  }

  lemma StepFirst(v: Vol, c: seq<Byte>, d: seq<Byte>)
    requires Filled(v, 4) && v.lay.dataStart + 4 <= |v.disk|
    requires v.disk[v.lay.dataStart + 2] == Data(c) && v.disk[v.lay.dataStart + 3] == Data(d)
    ensures var w, lo := Step(v, Delete("/a")), v.lay.dataStart;
            && VolOk(w) && Framed(w) && w.lay == v.lay && TableOf(w) == ThreeFiles(lo) && lo + 4 <= |w.disk|
            && w.disk[lo + 1] == Data(c) && w.disk[lo + 2] == Data(d) && Synced(w)
  {
    FilledFramed(v, 4);
    hide Filled, DeleteSlot, Doomed, OnDisk, ThreeFiles, Shape, Extents, Synced;
    DeleteFirst(v, c, d);
    FirstIsSaved(v);
    OkIsFramed(DeleteSlot(v, 1));
    assert Step(v, Delete("/a")) == DeleteSlot(v, 1);
  }

  /** The first deletion changes no slot in front of it. */
  lemma FirstIsSaved(v: Vol)
    requires Filled(v, 4)
    ensures v.hdr.count == 5 && OnDisk(TableOf(v), |v.disk|) && VolOk(DeleteSlot(v, 1)) && Synced(DeleteSlot(v, 1))
  {
    FilledTable(v);
    ExtentsOnDisk(v);
    assert FrontUntouched(FourFiles(v.lay.dataStart), 1);
    hide DeleteSlot, Shape, Extents, Exact, Synced, OnDisk, FourFiles;
    DeleteKeepsSyncedIff(v, 1);
  }

  /** The second one leaves slot 1 changed in the cache and unchanged on the disk. */
  lemma SecondIsNotSaved(v: Vol)
    requires VolOk(v) && Synced(v) && TableOf(v) == ThreeFiles(v.lay.dataStart)
    ensures v.hdr.count == 4 && OnDisk(TableOf(v), |v.disk|)
    ensures var w := DeleteSlot(v, 2);
            && VolOk(w) && w.disk[w.lay.meta] == HeaderSector(w.hdr) && !Synced(w) && Load(w.lay, w.disk) != w
            && w.hdr.count == 3 && Load(w.lay, w.disk).ents[1] == OneSector("/d", v.lay.dataStart + 2)
  {
    ThreeTable(v);
    ExtentsOnDisk(v);
    var t := ThreeFiles(v.lay.dataStart);
    assert Moves(t, GapAt(t, 2), 1) && !Untouched(t, 2, 1);
    assert v.ents[1] == TableOf(v)[1] == OneSector("/d", v.lay.dataStart + 2);
    hide Untouched, ThreeFiles, Shape, Extents, Synced, OnDisk, DeleteSlot, Load;
    DeleteKeepsSyncedIff(v, 2);
    SlotsInFront(v, 2);
    LoadedSlot(v, DeleteSlot(v, 2));
  }

  lemma LoadedSlot(v: Vol, w: Vol)
    requires VolOk(v) && v.hdr.count == 4 && OnDisk(TableOf(v), |v.disk|) && w == DeleteSlot(v, 2) && VolOk(w)
    requires w.disk[w.lay.meta] == HeaderSector(w.hdr) && SlotSector(w, 1) == EntrySector(v.ents[1])
    ensures w.hdr.count == 3 && Load(w.lay, w.disk).ents[1] == v.ents[1]
  {
    DeletedTable(v, 2) by { assert Framed(v) by { OkIsFramed(v); } }
    hide DeleteSlot, Extents, LoadBits;
  }

  lemma StepSecond(v: Vol, d: seq<Byte>)
    requires VolOk(v) && Framed(v) && TableOf(v) == ThreeFiles(v.lay.dataStart) && v.lay.dataStart + 4 <= |v.disk|
    requires v.disk[v.lay.dataStart + 2] == Data(d) && Synced(v)
    ensures var w, lo := Step(v, Delete("/b")), v.lay.dataStart;
            && VolOk(w) && Framed(w) && w.lay == v.lay && TableOf(w) == TwoFiles(lo)
            && lo < |w.disk| && w.disk[lo] == Data(d) && w.disk[w.lay.meta] == HeaderSector(w.hdr)
            && !Synced(w) && Load(w.lay, w.disk) != w && Load(w.lay, w.disk).ents[1] == OneSector("/d", lo + 2)
  {
    hide DeleteSlot, Doomed, OnDisk, ThreeFiles, TwoFiles, Shape, Extents, Synced, Load;
    DeleteSecond(v, d);
    SecondIsNotSaved(v);
    OkIsFramed(DeleteSlot(v, 2));
    assert Step(v, Delete("/b")) == DeleteSlot(v, 2);
  }

  lemma ReadBefore(v: Vol, c: seq<Byte>)
    requires VolOk(v) && TableOf(v) == ThreeFiles(v.lay.dataStart) && v.lay.dataStart + 1 < |v.disk|
    requires v.disk[v.lay.dataStart + 1] == Data(c) && |c| == 512
    ensures OnDisk(TableOf(v), |v.disk|) && ReadOn(v, "/c", 512) == Some(c)
  {
    ExtentsOnDisk(v);
    var t := TableOf(v);
    assert t[3] == OneSector("/c", v.lay.dataStart + 1) && |t[0].path| == 1 && t[1].path[1] == 'd'
        && t[2].path[1] == 'b' && t[3].path[1] == 'c';
    FindUnique(t, 3);
    ReadSector(v, 3, "/c", c);
  }

  /** A file of one sector reads as the bytes of the sector. */
  lemma ReadSector(v: Vol, u: nat, p: string, c: seq<Byte>)
    requires v.hdr.count <= |v.ents| && OnDisk(TableOf(v), |v.disk|) && u < v.hdr.count && |c| == 512
    requires Find(TableOf(v), p) == Some(u) && IsFile(TableOf(v)[u]) && TableOf(v)[u].size == 512
    requires TableOf(v)[u].start < |v.disk| && v.disk[TableOf(v)[u].start] == Data(c)
    ensures ReadOn(v, p, 512) == Some(c)
  {
    var e := TableOf(v)[u];
    assert SectorsOf(512) == 1;
    hide SectorsOf, Find, OnDisk;
    assert Content(e, v.disk) == [Data(c)];
    assert Flat([Data(c)]) == c + Flat([]) == c by { assert [Data(c)][1..] == []; }
    assert c[..512] == c;
  }

  /** What the two deletions leave on the disk, and what a remount makes of it. */
  lemma AfterRemount(v: Vol, datas: seq<seq<Byte>>)
    requires Filled(v, 4) && Blocks(datas) && Holds(v, datas, 4)
    ensures var w, lo := Step(Step(v, Delete("/a")), Delete("/b")), v.lay.dataStart;
            && VolOk(w) && w.disk[w.lay.meta] == HeaderSector(w.hdr) && TableOf(w) == TwoFiles(lo)
            && !Synced(w) && Load(w.lay, w.disk) != w && Load(w.lay, w.disk).ents[1] == OneSector("/d", lo + 2)
  {
    var c, d := datas[2], datas[3];
    assert v.lay.dataStart + 4 <= |v.disk|;
    assert v.disk[v.lay.dataStart + 2] == Data(c) && v.disk[v.lay.dataStart + 3] == Data(d);
    hide Filled, Holds, Framed, VolOk, Shape, Step, OnDisk, ThreeFiles, TwoFiles, Synced, Load;
    StepFirst(v, c, d);
    StepSecond(Step(v, Delete("/a")), d);
  }

  /**
   On every volume with room for five entries and four data sectors: format, create four files of 512 bytes,
   write each, delete the first two.  The third file then reads as the fourth.
   */
  lemma TwoDeletionsLoseAFile(lay: Layout, disk: seq<Sector>, total: nat, datas: seq<seq<Byte>>)
    requires Mountable(lay, disk, total) && lay.maxFiles >= 5 && total >= lay.dataStart + 4 && Blocks(datas)
    ensures var v := Run(FormatOn(lay, disk, total), Creations() + Writes(datas) + [Delete("/a")]);
            Framed(v) && ReadOn(v, "/c", 512) == Some(datas[2])
    ensures var v := Run(FormatOn(lay, disk, total), Creations() + Writes(datas) + [Delete("/a")] + [Delete("/b")]);
            Framed(v) && ReadOn(v, "/c", 512) == Some(datas[3])
  {
    var v := FormatOn(lay, disk, total);
    var w := RunToDeletions(lay, disk, total, datas);
    hide Run, Step, Filled, Holds, Blocks, Framed, ReadOn, FormatOn;
    RunLast(v, Creations() + Writes(datas), Delete("/a"));
    RunLast(v, Creations() + Writes(datas) + [Delete("/a")], Delete("/b"));
    AfterDeletions(w, datas);
  }

  /**
   After that run cache and disk disagree: a remount finds the fourth file where it was before the second
   deletion moved it.
   */
  lemma TwoDeletionsLoseASlot(lay: Layout, disk: seq<Sector>, total: nat, datas: seq<seq<Byte>>)
    requires Mountable(lay, disk, total) && lay.maxFiles >= 5 && total >= lay.dataStart + 4 && Blocks(datas)
    ensures var w := Run(FormatOn(lay, disk, total), Creations() + Writes(datas) + [Delete("/a")] + [Delete("/b")]);
            && VolOk(w) && w.disk[w.lay.meta] == HeaderSector(w.hdr) && TableOf(w) == TwoFiles(lay.dataStart)
            && !Synced(w) && Load(w.lay, w.disk) != w
            && Load(w.lay, w.disk).ents[1] == OneSector("/d", lay.dataStart + 2)
  {
    var v := FormatOn(lay, disk, total);
    var w := RunToDeletions(lay, disk, total, datas);
    hide Run, Step, Filled, Holds, Blocks, VolOk, Shape, FormatOn, Synced, Load;
    RunLast(v, Creations() + Writes(datas), Delete("/a"));
    RunLast(v, Creations() + Writes(datas) + [Delete("/a")], Delete("/b"));
    AfterRemount(w, datas);
  }

  /** The run up to the deletions. */
  lemma RunToDeletions(lay: Layout, disk: seq<Sector>, total: nat, datas: seq<seq<Byte>>) returns (w: Vol)
    requires Mountable(lay, disk, total) && lay.maxFiles >= 5 && total >= lay.dataStart + 4 && Blocks(datas)
    ensures w == Run(FormatOn(lay, disk, total), Creations() + Writes(datas))
    ensures Filled(w, 4) && w.lay == lay && Holds(w, datas, 4)
  {
    var v := FormatOn(lay, disk, total);
    FreshIsFilled(lay, disk, total);
    RunOfCreations(v, 4);
    RunOfWrites(Run(v, Creations()), datas, 4) by { assert Creations()[..4] == Creations(); }
    assert Creations()[..4] == Creations() && Writes(datas)[..4] == Writes(datas);
    RunConcat(v, Creations(), Writes(datas));
    w := Run(v, Creations() + Writes(datas));
  }
}
