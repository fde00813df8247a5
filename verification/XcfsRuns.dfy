/** Whole runs of file operations on a mounted volume. */
module XcfsRuns {
  import opened XcfsTypes
  import opened XcfsCompact
  import opened XcfsContent
  import opened XcfsTree
  import opened XcfsVolume
  import opened XcfsLaws
  import opened XcfsDelete
  import opened Options

  /** One call, with its path already normalised. */
  datatype Op =
    | Mkdir(path: string)
    | Create(path: string, size: nat)
    | Delete(path: string)
    | Write(path: string, data: seq<Byte>)

  ghost function Step(v: Vol, op: Op): Vol {
    if !Framed(v) then v
    else
      match op
      case Mkdir(p) => MkdirOn(v, p).0
      case Create(p, size) => CreateOn(v, p, size).0
      case Write(p, data) => WriteOn(v, p, data).0
      case Delete(p) => (match Doomed(v, p) case None => v case Some(u) => DeleteSlot(v, u))
  }

  ghost function Run(v: Vol, ops: seq<Op>): Vol
    decreases |ops|
  {
    if ops == [] then v else Run(Step(v, ops[0]), ops[1..])
  }

  // ---------------------------------------------------------------- the tree, over every run

  /** The operation creates nothing beneath a regular file. */
  ghost predicate UnderDirectory(v: Vol, op: Op) {
    Framed(v) && (op.Mkdir? || op.Create?) ==>
      match FindParent(TableOf(v), op.path)
      case None => true
      case Some(d) => d < v.hdr.count && v.ents[d].kind == DIR
  }

  ghost predicate AllUnder(v: Vol, ops: seq<Op>)
    decreases |ops|
  {
    ops != [] ==> UnderDirectory(v, ops[0]) && AllUnder(Step(v, ops[0]), ops[1..])
  }

  lemma OkIsFramed(v: Vol)
    requires VolOk(v)
    ensures Framed(v)
  {
  }

  /** The table with one more entry, and nothing else about the table changed. */
  ghost predicate Grown(v: Vol, v': Vol, e: Entry)
    requires v.hdr.count <= |v.ents|
  {
    && v'.lay == v.lay && v'.hdr == v.hdr.(count := v.hdr.count + 1) && |v'.ents| == |v.ents| && |v'.bits| == |v.bits|
    && |v'.disk| == |v.disk| && v.hdr.count < |v.ents| && v'.ents == v.ents[v.hdr.count := e]
  }

  lemma GrownKeepsTree(v: Vol, v': Vol, e: Entry)
    requires Framed(v) && TreeOk(TableOf(v)) && Grown(v, v', e)
    requires Find(TableOf(v), e.path).None? && FindParent(TableOf(v), e.path) == Some(e.parent)
    requires e.parent < v.hdr.count && v.ents[e.parent].kind == DIR && (e.kind == FILE || e.kind == DIR)
    requires IsFile(e) ==> e.start + SectorsOf(e.size) <= |v.disk|
    ensures Framed(v') && TreeOk(TableOf(v'))
  {
    hide SectorsOf, Find, FindParent;
    assert TableOf(v') == TableOf(v) + [e];
    AddKeepsTreeIff(TableOf(v), e);
    hide TreeOk;
  }

  lemma CompactOnDisk(t: Table, u: nat, n: nat)
    requires u < |t| && OnDisk(t, n)
    ensures OnDisk(Removed(Compact(t, u), u), n)
  {
  }

  lemma DeletedKinds(v: Vol, u: nat)
    requires Framed(v) && 0 < u < v.hdr.count
    ensures var t' := Removed(Compact(TableOf(v), u), u);
            forall i :: 0 <= i < |t'| ==> t'[i].kind == FILE || t'[i].kind == DIR
  {
  }

  lemma DeletedFramed(v: Vol, u: nat)
    requires Framed(v) && 0 < u < v.hdr.count
    ensures Framed(DeleteSlot(v, u))
  {
    DeletedTable(v, u);
    CompactOnDisk(TableOf(v), u, |v.disk|);
    DeletedKinds(v, u);
    var v' := DeleteSlot(v, u);
    assert |v'.disk| == |v.disk| by { hide SectorsOf, Stage, StageBits, StageDisk, Removed, Compact; }
    hide DeleteSlot, SectorsOf, Compact, Removed, StageBits;
    assert forall i :: 0 <= i < v'.hdr.count ==> v'.ents[i] == TableOf(v')[i];
  }

  lemma DoomedIsLeaf(v: Vol, p: string)
    requires Framed(v) && TreeOk(TableOf(v)) && Doomed(v, p).Some?
    ensures 0 < Doomed(v, p).value < v.hdr.count && !HasChild(TableOf(v), Doomed(v, p).value)
  {
    hide Find, Dirname;
    var t, u := TableOf(v), Doomed(v, p).value;
    if t[u].kind != DIR {
      forall i | 0 <= i < |t| && i != u
        ensures t[i].parent != u
      {
        if i > 0 {
          assert ParentOk(t, i);
        }
      }
    }
  }

  lemma CreatedGrows(v: Vol, p: string, size: nat)
    requires Framed(v) && Admit(v, p).Some? && Place(v, size).Some?
    ensures var e := NewFile(v, p, size);
            && Grown(v, CreateOn(v, p, size).0, e) && e.start + SectorsOf(size) <= |v.disk|
  {
  }

  /** Every operation that creates nothing beneath a regular file keeps the tree, whatever the extents are. */
  lemma StepKeepsTree(v: Vol, op: Op)
    requires Framed(v) && TreeOk(TableOf(v)) && UnderDirectory(v, op)
    ensures Framed(Step(v, op)) && TreeOk(TableOf(Step(v, op)))
  {
    hide SectorsOf, Find, FindParent, TreeOk, FirstRun, Mark, Doomed, DeleteSlot, OnDisk, Place;
    match op
    case Mkdir(p) =>
      match Admit(v, p) {
        case None =>
        case Some(par) => GrownKeepsTree(v, Step(v, op), Entry(p, 0, 0, par, DIR, 0));
      }
    case Create(p, size) =>
      if Admit(v, p).Some? && Place(v, size).Some? {
        CreatedGrows(v, p, size);
        GrownKeepsTree(v, Step(v, op), NewFile(v, p, size));
      }
    case Delete(p) =>
      match Doomed(v, p) {
        case None =>
        case Some(u) =>
          DoomedIsLeaf(v, p);
          DeletedFramed(v, u);
          DeleteKeepsTreeIff(v, u);
      }
    case Write(p, data) =>
      assert TableOf(Step(v, op)) == TableOf(v);
  }

  lemma {:induction false} RunKeepsTree(v: Vol, ops: seq<Op>)
    requires Framed(v) && TreeOk(TableOf(v)) && AllUnder(v, ops)
    ensures Framed(Run(v, ops)) && TreeOk(TableOf(Run(v, ops)))
    decreases |ops|
  {
    hide Framed, TreeOk, Step, UnderDirectory;
    if ops != [] {
      StepKeepsTree(v, ops[0]);
      RunKeepsTree(Step(v, ops[0]), ops[1..]);
    }
  }

  /**
   In every run from a fresh volume that creates nothing beneath a regular file, paths are distinct,
   the root stays in slot 0, every other entry's parent is the directory its path lies in, and so
   the slots that `xcfs_readdir` lists for a directory are those whose path lies directly in it.
   */
  lemma FormattedRunIsTree(lay: Layout, disk: seq<Sector>, total: nat, ops: seq<Op>)
    requires Mountable(lay, disk, total) && AllUnder(FormatOn(lay, disk, total), ops)
    ensures var v := Run(FormatOn(lay, disk, total), ops);
            && Framed(v) && TreeOk(TableOf(v))
            && (forall i :: 1 <= i < v.hdr.count ==>
              var par := TableOf(v)[i].parent;
              && par < v.hdr.count && TableOf(v)[par].kind == DIR
              && LiesIn(TableOf(v)[i].path, TableOf(v)[par].path))
            && forall d :: 0 <= d < v.hdr.count ==> Slots(TableOf(v), d, 0) == Inside(TableOf(v), d, 0)
  {
    FormatLaw(lay, disk, total);
    OkIsFramed(FormatOn(lay, disk, total));
    hide FormatOn, TreeOk, VolOk, Slots, Inside, LiesIn;
    RunKeepsTree(FormatOn(lay, disk, total), ops);
    var v := Run(FormatOn(lay, disk, total), ops);
    forall i | 1 <= i < v.hdr.count
      ensures var par := TableOf(v)[i].parent;
              && par < v.hdr.count && TableOf(v)[par].kind == DIR
              && LiesIn(TableOf(v)[i].path, TableOf(v)[par].path)
    {
      TreeLies(TableOf(v), i);
    }
    forall d | 0 <= d < v.hdr.count
      ensures Slots(TableOf(v), d, 0) == Inside(TableOf(v), d, 0)
    {
      SlotsAreInside(TableOf(v), d, 0);
    }
  }

  lemma StepKeepsRooted(v: Vol, op: Op)
    requires Framed(v) && TreeOk(TableOf(v)) && UnderDirectory(v, op) && AllRooted(TableOf(v)) && Rooted(op.path)
    ensures Framed(Step(v, op)) && AllRooted(TableOf(Step(v, op)))
  {
    StepKeepsTree(v, op);
    hide SectorsOf, Find, FindParent, TreeOk, FirstRun, Mark, Doomed, DeleteSlot, OnDisk, Place, Rooted;
    match op
    case Mkdir(p) =>
      if Admit(v, p).Some? {
        assert TableOf(Step(v, op)) == TableOf(v) + [Entry(p, 0, 0, Admit(v, p).value, DIR, 0)];
      }
    case Create(p, size) =>
      if Admit(v, p).Some? && Place(v, size).Some? {
        CreatedGrows(v, p, size);
        assert TableOf(Step(v, op)) == TableOf(v) + [NewFile(v, p, size)];
      }
    case Delete(p) =>
      if Doomed(v, p).Some? {
        DeletedPaths(v, Doomed(v, p).value);
      }
    case Write(p, data) =>
      assert TableOf(Step(v, op)) == TableOf(v);
  }

  lemma DeletedPaths(v: Vol, u: nat)
    requires Framed(v) && u < v.hdr.count && AllRooted(TableOf(v))
    ensures var w := DeleteSlot(v, u); w.hdr.count <= |w.ents| && AllRooted(TableOf(w))
  {
    DeletedTable(v, u);
    hide Rooted;
  }

  lemma {:induction false} RunKeepsRooted(v: Vol, ops: seq<Op>)
    requires Framed(v) && TreeOk(TableOf(v)) && AllUnder(v, ops) && AllRooted(TableOf(v))
    requires forall i :: 0 <= i < |ops| ==> Rooted(ops[i].path)
    ensures Framed(Run(v, ops)) && AllRooted(TableOf(Run(v, ops)))
    decreases |ops|
  {
    hide Framed, TreeOk, Step, UnderDirectory, AllRooted, Rooted;
    if ops != [] {
      StepKeepsTree(v, ops[0]);
      StepKeepsRooted(v, ops[0]);
      assert forall i :: 0 <= i < |ops[1..]| ==> ops[1..][i] == ops[i + 1];
      RunKeepsRooted(Step(v, ops[0]), ops[1..]);
    }
  }

  /**
   In such a run, on paths as `np` returns them, the names that `xcfs_readdir` lists for a directory are those
   of the entries whose path is the directory's path, a slash, and the name; it lists each once.
   */
  lemma FormattedRunLists(lay: Layout, disk: seq<Sector>, total: nat, ops: seq<Op>, d: nat, name: string)
    requires Mountable(lay, disk, total) && AllUnder(FormatOn(lay, disk, total), ops)
    requires forall i :: 0 <= i < |ops| ==> Rooted(ops[i].path)
    requires '/' !in name
    ensures var v := Run(FormatOn(lay, disk, total), ops);
            v.hdr.count <= |v.ents| && (d < v.hdr.count ==>
              var t := TableOf(v); var slots := Slots(t, d, 0);
              && ((exists a :: 0 <= a < |slots| && Basename(t[slots[a]].path) == name)
                  <==> exists k :: 0 <= k < |t| && k != d && t[k].path == Prefix(t, d) + name)
              && forall a, b :: 0 <= a < b < |slots| ==> Basename(t[slots[a]].path) != Basename(t[slots[b]].path))
  {
    var v0 := FormatOn(lay, disk, total);
    FormatLaw(lay, disk, total);
    OkIsFramed(v0);
    assert AllRooted(TableOf(v0));
    hide FormatOn, TreeOk, VolOk, Slots, AllRooted, Rooted, Prefix, Basename;
    RunKeepsTree(v0, ops);
    RunKeepsRooted(v0, ops);
    if d < Run(v0, ops).hdr.count {
      ListedNames(TableOf(Run(v0, ops)), d, name);
    }
  }

  // ---------------------------------------------------------------- extents and bitmap, over safe runs

  ghost predicate Sound(v: Vol) {
    VolOk(v) && Exact(v) && TreeOk(TableOf(v))
  }

  /** Nothing beneath a regular file, no size that wraps around, and no deletion that loses sectors. */
  ghost predicate Calm(v: Vol, op: Op) {
    && UnderDirectory(v, op) && (op.Create? ==> op.size <= 0xFFFF_FE00)
    && (Framed(v) && op.Delete? && Doomed(v, op.path).Some? ==> SafeDelete(TableOf(v), Doomed(v, op.path).value))
  }

  ghost predicate AllCalm(v: Vol, ops: seq<Op>)
    decreases |ops|
  {
    ops != [] ==> Calm(v, ops[0]) && AllCalm(Step(v, ops[0]), ops[1..])
  }

  lemma StepKeepsSound(v: Vol, op: Op)
    requires Sound(v) && Calm(v, op)
    ensures Sound(Step(v, op)) && Framed(v)
  {
    OkIsFramed(v);
    StepKeepsTree(v, op);
    hide TreeOk, DeleteSlot, MkdirOn, CreateOn, WriteOn, Shape, Extents, Framed, Exact, UnderDirectory, DataKept;
    hide ReadOn;
    hide Synced, Doomed;
    match op
    case Mkdir(p) => MkdirLaw(v, p);
    case Create(p, size) => CreateLaw(v, p, size);
    case Write(p, data) => WriteLaw(v, p, data);
    case Delete(p) =>
      if Doomed(v, p).Some? {
        DoomedIsLeaf(v, p);
        ExtentsOnDisk(v);
        DeleteKeepsOk(v, Doomed(v, p).value);
        DeleteKeepsExactIff(v, Doomed(v, p).value);
      }
  }

  lemma {:induction false} RunKeepsSound(v: Vol, ops: seq<Op>)
    requires Sound(v) && AllCalm(v, ops)
    ensures Sound(Run(v, ops))
    decreases |ops|
  {
    hide Sound, Calm, Step;
    if ops != [] {
      StepKeepsSound(v, ops[0]);
      RunKeepsSound(Step(v, ops[0]), ops[1..]);
    }
  }

  // ---------------------------------------------------------------- a file's bytes, over safe runs

  datatype Held = Held(size: nat, sectors: seq<Sector>)

  /** The size and the sectors of the file with that path. */
  ghost function FileAt(v: Vol, p: string): Option<Held>
    requires Framed(v)
  {
    match Find(TableOf(v), p)
    case None => None
    case Some(u) =>
      var e := TableOf(v)[u];
      if IsFile(e) then Some(Held(e.size, Content(e, v.disk))) else None
  }

  predicate Touches(op: Op, p: string) {
    (op.Write? || op.Delete?) && op.path == p
  }

  lemma {:induction false} FindMore(t: Table, e: Entry, p: string)
    requires Find(t, p).Some?
    ensures Find(t + [e], p) == Find(t, p)
  {
    if t[0].path != p {
      assert (t + [e])[1..] == t[1..] + [e];
      FindMore(t[1..], e, p);
    }
  }

  lemma ContentKept(v: Vol, v': Vol, e: Entry, start: nat, n: nat)
    requires DataKept(v, v', start, n) && v.lay.dataStart <= e.start && e.start + SectorsOf(e.size) <= |v.disk|
    requires e.start + SectorsOf(e.size) <= start || start + n <= e.start
    ensures |v'.disk| == |v.disk| && Content(e, v'.disk) == Content(e, v.disk)
  {
  }

  /** The file's entry is where it was, and no sector of it was written. */
  lemma SameEntry(v: Vol, v': Vol, p: string, u: nat, start: nat, n: nat)
    requires VolOk(v) && Framed(v) && Framed(v') && u < v.hdr.count && IsFile(TableOf(v)[u])
    requires Find(TableOf(v), p) == Some(u) && Find(TableOf(v'), p) == Some(u)
    requires TableOf(v')[u] == TableOf(v)[u] && DataKept(v, v', start, n)
    requires var e := TableOf(v)[u]; e.start + SectorsOf(e.size) <= start || start + n <= e.start
    ensures FileAt(v', p) == FileAt(v, p)
  {
    hide SectorsOf, Find, Content, DataKept, Honest;
    ContentKept(v, v', TableOf(v)[u], start, n);
  }

  lemma MkdirKeepsFile(v: Vol, q: string, p: string)
    requires Sound(v) && Framed(v) && Framed(MkdirOn(v, q).0) && FileAt(v, p).Some?
    ensures FileAt(MkdirOn(v, q).0, p) == FileAt(v, p)
  {
    var v' := MkdirOn(v, q).0;
    MkdirLaw(v, q);
    hide MkdirOn, Find, FindParent, SectorsOf, Shape, Exact, TreeOk, Extents, DataKept, Synced, Content;
    var u := Find(TableOf(v), p).value;
    if MkdirOn(v, q).1 {
      FindMore(TableOf(v), TableOf(v')[v.hdr.count], p);
      SameEntry(v, v', p, u, 0, 0);
    }
  }

  lemma CreateKeepsFile(v: Vol, q: string, size: nat, p: string)
    requires Sound(v) && Framed(v) && size <= 0xFFFF_FE00 && Framed(CreateOn(v, q, size).0) && FileAt(v, p).Some?
    ensures FileAt(CreateOn(v, q, size).0, p) == FileAt(v, p)
  {
    var v' := CreateOn(v, q, size).0;
    CreateLaw(v, q, size);
    hide CreateOn, Find, FindParent, SectorsOf, Shape, Exact, TreeOk, DataKept, Synced, Content, Admit, Place;
    var u, t := Find(TableOf(v), p).value, TableOf(v);
    if CreateOn(v, q, size).1 {
      var e := NewFile(v, q, size);
      FindMore(t, e, p);
      assert TableOf(v')[u] == t[u] && TableOf(v')[|t|] == e;
      assert ExtentsApart(TableOf(v')[u], TableOf(v')[|t|]);
      SameEntry(v, v', p, u, e.start, SectorsOf(size));
    }
  }

  lemma WriteKeepsFile(v: Vol, q: string, data: seq<Byte>, p: string)
    requires Sound(v) && Framed(v) && Framed(WriteOn(v, q, data).0) && FileAt(v, p).Some? && q != p
    ensures FileAt(WriteOn(v, q, data).0, p) == FileAt(v, p)
  {
    var v' := WriteOn(v, q, data).0;
    if WriteOn(v, q, data).1 {
      var u, w, t := Find(TableOf(v), p).value, Find(TableOf(v), q).value, TableOf(v);
      assert IsFile(t[w]) && IsFile(t[u]) && u != w;
      WriteLaw(v, q, data);
      hide FileAt, WriteOn, Find, FindParent, SectorsOf, Shape, Exact, TreeOk, DataKept, Synced, Content, ReadOn;
      assert if u < w then ExtentsApart(t[u], t[w]) else ExtentsApart(t[w], t[u]);
      SameEntry(v, v', p, u, t[w].start, SectorsOf(t[w].size));
    }
  }

  lemma DeleteKeepsFile(v: Vol, u: nat, p: string)
    requires Sound(v) && Framed(v) && 0 < u < v.hdr.count && SafeDelete(TableOf(v), u)
    requires Framed(DeleteSlot(v, u)) && TreeOk(TableOf(DeleteSlot(v, u)))
    requires FileAt(v, p).Some? && v.ents[u].path != p
    ensures FileAt(DeleteSlot(v, u), p) == FileAt(v, p)
  {
    var v', t := DeleteSlot(v, u), TableOf(v);
    var k := Find(t, p).value;
    var i: nat := if k == |t| - 1 then u else k;
    assert i < v.hdr.count - 1 && Source(t, u, i) == k && v.ents[k] == t[k];
    DeletedTable(v, u);
    DeleteKeepsContent(v, u, i);
    DeletedEntry(v, u, i);
    assert v'.ents[i] == TableOf(v')[i];
    FindUnique(TableOf(v'), i);
    hide DeleteSlot, SectorsOf, Find, Content, Shape, Extents, Exact, Compact, Removed, SafeDelete;
  }

  /** A file that an operation neither writes nor deletes keeps its size and its sectors. */
  lemma StepKeepsFile(v: Vol, op: Op, p: string)
    requires Sound(v) && Calm(v, op) && Framed(v) && FileAt(v, p).Some? && !Touches(op, p)
    ensures Sound(Step(v, op)) && Framed(Step(v, op)) && FileAt(Step(v, op), p) == FileAt(v, p)
  {
    StepKeepsSound(v, op);
    OkIsFramed(Step(v, op));
    hide Sound, Framed, FileAt, MkdirOn, CreateOn, WriteOn, DeleteSlot, Doomed, UnderDirectory, SafeDelete;
    match op
    case Mkdir(q) => MkdirKeepsFile(v, q, p);
    case Create(q, size) => CreateKeepsFile(v, q, size, p);
    case Write(q, data) => WriteKeepsFile(v, q, data, p);
    case Delete(q) =>
      if Doomed(v, q).Some? {
        DoomedIsLeaf(v, q) by { assert Sound(v); }
        DeleteKeepsFile(v, Doomed(v, q).value, p);
      }
  }

  lemma {:induction false} RunKeepsFile(v: Vol, ops: seq<Op>, p: string)
    requires Sound(v) && AllCalm(v, ops) && Framed(v) && FileAt(v, p).Some?
    requires forall i :: 0 <= i < |ops| ==> !Touches(ops[i], p)
    ensures Framed(Run(v, ops)) && FileAt(Run(v, ops), p) == FileAt(v, p)
    decreases |ops|
  {
    hide Sound, Framed, Calm, Step, FileAt;
    if ops != [] {
      StepKeepsFile(v, ops[0], p);
      assert forall i :: 0 <= i < |ops[1..]| ==> ops[1..][i] == ops[i + 1];
      RunKeepsFile(Step(v, ops[0]), ops[1..], p);
    }
  }

  /** What a read returns depends on nothing but the size and the sectors of the file. */
  lemma SameRead(v: Vol, w: Vol, p: string, n: nat)
    requires Framed(v) && Framed(w) && FileAt(v, p).Some? && FileAt(w, p) == FileAt(v, p)
    ensures ReadOn(w, p, n) == ReadOn(v, p, n)
  {
  }

  lemma WrittenFile(v: Vol, p: string, data: seq<Byte>)
    requires Sound(v) && WriteOn(v, p, data).1
    ensures var w := WriteOn(v, p, data).0;
            && Sound(w) && Framed(w) && FileAt(w, p).Some?
            && forall n: nat :: n <= |data| ==> ReadOn(w, p, n) == Some(data[..n])
  {
    var w := WriteOn(v, p, data).0;
    WriteLaw(v, p, data);
    OkIsFramed(w);
    assert IsFile(TableOf(v)[Find(TableOf(v), p).value]);
    hide WriteOn, Exact, SectorsOf, Find, Shape, Extents, DataKept, Synced, TreeOk, Content, Framed;
  }

  /** What a write put into a file is what a read returns after any run that does not touch the file. */
  lemma WrittenStays(v: Vol, p: string, data: seq<Byte>, ops: seq<Op>)
    requires Sound(v) && WriteOn(v, p, data).1 && AllCalm(WriteOn(v, p, data).0, ops)
    requires forall i :: 0 <= i < |ops| ==> !Touches(ops[i], p)
    ensures var v' := Run(WriteOn(v, p, data).0, ops);
            Framed(v') && forall n: nat :: n <= |data| ==> ReadOn(v', p, n) == Some(data[..n])
  {
    var w := WriteOn(v, p, data).0;
    WrittenFile(v, p, data);
    hide WriteOn, Run, Sound, FileAt, ReadOn, Framed, OnDisk, AllCalm;
    RunKeepsFile(w, ops, p);
    forall n: nat | n <= |data|
      ensures ReadOn(Run(w, ops), p, n) == Some(data[..n])
    {
      SameRead(w, Run(w, ops), p, n);
    }
  }

  // ---------------------------------------------------------------- holes, over safe runs

  ghost predicate NoHoles(v: Vol)
    requires v.hdr.count <= |v.ents|
  {
    HoleFree(TableOf(v), -1, v.lay.dataStart)
  }

  /** First fit on a volume without holes puts the new file right behind the others. */
  lemma CreateKeepsNoHoles(v: Vol, e: Entry)
    requires VolOk(v) && Exact(v) && NoHoles(v) && IsFile(e)
    requires Place(v, e.size) == Some(e.start)
    ensures HoleFree(TableOf(v) + [e], -1, v.lay.dataStart)
  {
    var lo, n := v.lay.dataStart, SectorsOf(e.size);
    PlaceIsFirst(v, e.size);
    var t := TableOf(v);
    forall x: nat | x > lo && OwnedBut(t + [e], -1, x)
      ensures OwnedBut(t + [e], -1, x - 1)
    {
      OwnedByMore(t, e, x);
      OwnedByMore(t, e, x - 1);
      if x == e.start {
        FirstIsBehindOwned(v, x - lo, n);
      }
      hide SectorsOf;
    }
  }

  lemma FirstIsBehindOwned(v: Vol, k: nat, n: nat)
    requires Shape(v) && Exact(v) && n > 0 && 0 < k && k + n <= |v.bits| && ClearRun(v.bits, k, n)
    requires !ClearRun(v.bits, k - 1, n)
    ensures OwnedBut(TableOf(v), -1, v.lay.dataStart + (k - 1))
  {
  }

  lemma StepKeepsNoHoles(v: Vol, op: Op)
    requires Sound(v) && Calm(v, op) && NoHoles(v)
    ensures Sound(Step(v, op)) && Step(v, op).hdr.count <= |Step(v, op).ents| && NoHoles(Step(v, op))
  {
    StepKeepsSound(v, op);
    ExtentsOnDisk(v);
    hide Shape, Extents, Exact, TreeOk, MkdirOn, CreateOn, WriteOn, DeleteSlot, HoleFree, DataKept, Synced, Framed;
    hide Find, FindParent, SectorsOf, ReadOn, Doomed, UnderDirectory, Admit, Place;
    match op
    case Mkdir(p) => MkdirNoHoles(v, p);
    case Create(p, size) => CreateNoHoles(v, p, size);
    case Write(p, data) => WriteLaw(v, p, data);
    case Delete(p) =>
      if Doomed(v, p).Some? {
        DeleteKeepsHoleFree(v, Doomed(v, p).value);
      }
  }

  lemma MkdirNoHoles(v: Vol, p: string)
    requires VolOk(v) && Exact(v) && NoHoles(v)
    ensures VolOk(MkdirOn(v, p).0) && NoHoles(MkdirOn(v, p).0)
  {
    MkdirLaw(v, p);
    hide Shape, Extents, Exact, MkdirOn, HoleFree, DataKept, Synced, Find, FindParent;
    if MkdirOn(v, p).1 {
      DirectoryKeepsHoleFree(TableOf(v), TableOf(MkdirOn(v, p).0)[v.hdr.count], v.lay.dataStart);
    }
    assert MkdirOn(v, p).0.lay == v.lay by { SameLayout(v, p, 0); }
  }

  lemma CreateNoHoles(v: Vol, p: string, size: nat)
    requires VolOk(v) && Exact(v) && NoHoles(v) && size <= 0xFFFF_FE00
    ensures VolOk(CreateOn(v, p, size).0) && NoHoles(CreateOn(v, p, size).0)
  {
    CreateLaw(v, p, size);
    hide Shape, Extents, Exact, CreateOn, HoleFree, DataKept, Synced, Find, FindParent, Admit, Place, SectorsOf;
    if CreateOn(v, p, size).1 {
      CreateKeepsNoHoles(v, NewFile(v, p, size));
    }
    assert CreateOn(v, p, size).0.lay == v.lay by { SameLayout(v, p, size); }
  }

  lemma SameLayout(v: Vol, p: string, size: nat)
    requires Roomy(v)
    ensures MkdirOn(v, p).0.lay == v.lay && CreateOn(v, p, size).0.lay == v.lay
  {
    hide SectorsOf, Find, FindParent, FirstRun;
  }

  lemma DirectoryKeepsHoleFree(t: Table, e: Entry, lo: nat)
    requires HoleFree(t, -1, lo) && !IsFile(e)
    ensures HoleFree(t + [e], -1, lo)
  {
    forall x: nat | x > lo && OwnedBut(t + [e], -1, x)
      ensures OwnedBut(t + [e], -1, x - 1)
    {
      OwnedByMore(t, e, x);
      OwnedByMore(t, e, x - 1);
    }
  }

  /** A safe run from a fresh volume never leaves a hole between files, nor a bit set for no file. */
  lemma {:induction false} RunKeepsNoHoles(v: Vol, ops: seq<Op>)
    requires Sound(v) && AllCalm(v, ops) && NoHoles(v)
    ensures Run(v, ops).hdr.count <= |Run(v, ops).ents| && Sound(Run(v, ops)) && NoHoles(Run(v, ops))
    decreases |ops|
  {
    assert v.hdr.count <= |v.ents|;
    hide Sound, Calm, Step, NoHoles;
    if ops != [] {
      StepKeepsNoHoles(v, ops[0]);
      RunKeepsNoHoles(Step(v, ops[0]), ops[1..]);
    }
  }

  // ---------------------------------------------------------------- agreement with the disk, over runs

  /** A deletion in the run changes no slot in front of the deleted one. */
  ghost predicate Orderly(v: Vol, op: Op) {
    Framed(v) && op.Delete? && Doomed(v, op.path).Some? ==> FrontUntouched(TableOf(v), Doomed(v, op.path).value)
  }

  ghost predicate AllOrderly(v: Vol, ops: seq<Op>)
    decreases |ops|
  {
    ops != [] ==> Orderly(v, ops[0]) && AllOrderly(Step(v, ops[0]), ops[1..])
  }

  lemma StepKeepsSynced(v: Vol, op: Op)
    requires Sound(v) && Calm(v, op) && Orderly(v, op) && Synced(v)
    ensures Sound(Step(v, op)) && Synced(Step(v, op))
  {
    StepKeepsSound(v, op);
    ExtentsOnDisk(v);
    hide TreeOk, DeleteSlot, MkdirOn, CreateOn, WriteOn, Shape, Extents, Framed, Exact, UnderDirectory, DataKept;
    hide ReadOn;
    hide Synced, Doomed;
    match op
    case Mkdir(p) => MkdirLaw(v, p);
    case Create(p, size) => CreateLaw(v, p, size);
    case Write(p, data) => WriteLaw(v, p, data);
    case Delete(p) =>
      if Doomed(v, p).Some? {
        DoomedIsLeaf(v, p);
        DeleteKeepsSyncedIff(v, Doomed(v, p).value);
      }
  }

  /** After an orderly run a remount, the load of `xcfs_init`, sees the volume as it is. */
  lemma {:induction false} RunRemounts(v: Vol, ops: seq<Op>)
    requires Sound(v) && AllCalm(v, ops) && AllOrderly(v, ops) && Synced(v)
    ensures Sound(Run(v, ops)) && Synced(Run(v, ops))
    ensures var w := Run(v, ops); Load(w.lay, w.disk) == w
    decreases |ops|
  {
    if ops == [] {
      LoadRebuilds(v);
    } else {
      StepKeepsSynced(v, ops[0]);
      hide Calm, Step, Orderly, Exact, Extents, TreeOk, Synced, Load;
      RunRemounts(Step(v, ops[0]), ops[1..]);
    }
  }
}
