/** What the compaction does to the contents of the other files, to the bitmap and to holes. */
module XcfsContent {
  import opened XcfsTypes
  import opened XcfsCompact

  ghost predicate OnDisk(ents: seq<Entry>, n: nat) {
    forall i :: 0 <= i < |ents| && IsFile(ents[i]) ==> ents[i].start + SectorsOf(ents[i].size) <= n
  }

  // ---------------------------------------------------------------- contents

  /** File `j` reads the same before the loop and after it has passed `k` slots. */
  ghost predicate Kept(disk: seq<Sector>, ents: seq<Entry>, g: Gap, k: nat, j: nat)
    requires k <= |ents| && j < |ents| && IsFile(ents[j]) && OnDisk(ents, |disk|)
  {
    Content(Stage(ents, g, k)[j], StageDisk(disk, ents, g, k)) == Content(ents[j], disk)
  }

  lemma {:induction false} SafeKeeps(disk: seq<Sector>, ents: seq<Entry>, g: Gap, lo: nat, hi: nat, k: nat, j: nat)
    requires GapOf(ents, g, lo, hi) && Safe(ents, g) && hi <= |disk| && OnDisk(ents, |disk|)
    requires k <= |ents| && j < |ents| && j != g.slot && IsFile(ents[j])
    ensures Kept(disk, ents, g, k, j)
    decreases k
  {
    hide SectorsOf, Stage;
    if k > 0 {
      SafeKeeps(disk, ents, g, lo, hi, k - 1, j);
      if Moves(ents, g, k - 1) {
        SafeMoveKeeps(StageDisk(disk, ents, g, k - 1), ents, g, lo, hi, k, j);
      }
    }
  }

  lemma SafeMoveKeeps(prev: seq<Sector>, ents: seq<Entry>, g: Gap, lo: nat, hi: nat, k: nat, j: nat)
    requires GapOf(ents, g, lo, hi) && Safe(ents, g) && hi <= |prev| && OnDisk(ents, |prev|)
    requires 0 < k <= |ents| && j < |ents| && j != g.slot && IsFile(ents[j]) && Moves(ents, g, k - 1)
    ensures var s0, s := Stage(ents, g, k - 1)[j], Stage(ents, g, k)[j];
            && s0.start + SectorsOf(s0.size) <= |prev| && s.start + SectorsOf(s.size) <= |prev|
            && Content(s, CopyDown(prev, ents[k - 1].start, Shifted(ents, g, k - 1).start, SectorsOf(ents[k - 1].size)))
               == Content(s0, prev)
  {
    BesideGap(ents, g, lo, hi, k - 1);
    StageApart(ents, g, lo, hi, k);
    hide SectorsOf, Stage, Safe, GapOf, Content, CopyDown;
    var s := Stage(ents, g, k);
    if j < k - 1 {
      assert ExtentsApart(s[j], s[k - 1]);
    } else if j > k - 1 {
      assert ExtentsApart(s[k - 1], s[j]);
    }
    CopyKeeps(prev, ents[k - 1], s[k - 1], s[j]);
  }

  /** Copying one extent down gives its file the same content and leaves apart files alone. */
  lemma CopyKeeps(disk: seq<Sector>, a: Entry, a': Entry, e: Entry)
    requires a'.size == a.size && a'.start <= a.start && a.start + SectorsOf(a.size) <= |disk|
    requires e.start + SectorsOf(e.size) <= |disk|
    ensures var disk' := CopyDown(disk, a.start, a'.start, SectorsOf(a.size));
            && Content(a', disk') == Content(a, disk)
            && (ExtentsApart(e, a') || ExtentsApart(a', e) ==> Content(e, disk') == Content(e, disk))
  {
  }

  /** Sectors in front of the data area are never written. */
  lemma {:induction false} FrontKept(disk: seq<Sector>, ents: seq<Entry>, g: Gap, lo: nat, hi: nat, k: nat, x: nat)
    requires GapOf(ents, g, lo, hi) && hi <= |disk| && OnDisk(ents, |disk|) && k <= |ents| && x < lo && x < |disk|
    ensures StageDisk(disk, ents, g, k)[x] == disk[x]
    decreases k
  {
    hide SectorsOf;
    if k > 0 {
      FrontKept(disk, ents, g, lo, hi, k - 1, x);
      if Moves(ents, g, k - 1) {
        BesideGap(ents, g, lo, hi, k - 1);
      }
    }
  }

  // ---------------------------------------------------------------- contents, the other way round

  ghost predicate OnlyAt(disk: seq<Sector>, v: Sector, x: nat) {
    forall y :: 0 <= y < |disk| && disk[y] == v ==> y == x
  }

  lemma CopyOnlyAt(disk: seq<Sector>, old': nat, new': nat, n: nat, v: Sector, x: nat)
    requires old' + n <= |disk| && new' <= old' && OnlyAt(disk, v, x) && !(old' <= x < old' + n)
    ensures var disk' := CopyDown(disk, old', new', n);
            OnlyAt(disk', v, x) && (new' <= x < new' + n ==> v !in disk')
  {
  }

  /** A sector value held only at `x`, where file `j` keeps it, stays there until something is copied onto it. */
  lemma {:induction false} StaysAt(disk: seq<Sector>, ents: seq<Entry>, g: Gap, lo: nat, hi: nat, k: nat, j: nat,
                                   x: nat)
    requires GapOf(ents, g, lo, hi) && hi <= |disk| && OnDisk(ents, |disk|) && k <= j < |ents|
    requires IsFile(ents[j]) && InExtent(ents[j], x) && OnlyAt(disk, disk[x], x)
    ensures OnlyAt(StageDisk(disk, ents, g, k), disk[x], x)
    decreases k
  {
    hide SectorsOf;
    if k > 0 {
      StaysAt(disk, ents, g, lo, hi, k - 1, j, x);
      if Moves(ents, g, k - 1) {
        BesideGap(ents, g, lo, hi, k - 1);
        assert ExtentsApart(ents[k - 1], ents[j]);
        var prev := StageDisk(disk, ents, g, k - 1);
        CopyOnlyAt(prev, ents[k - 1].start, Shifted(ents, g, k - 1).start, SectorsOf(ents[k - 1].size), disk[x], x);
      }
    }
  }

  /** Once file `i` has been copied onto it, the value is nowhere on the disk. */
  lemma {:induction false} Lost(disk: seq<Sector>, ents: seq<Entry>, g: Gap, lo: nat, hi: nat, k: nat, i: nat, j: nat,
                                x: nat)
    requires GapOf(ents, g, lo, hi) && hi <= |disk| && OnDisk(ents, |disk|) && i < j < |ents| && i < k <= |ents|
    requires Moves(ents, g, i) && IsFile(ents[j]) && InExtent(ents[j], x) && OnlyAt(disk, disk[x], x)
    requires InExtent(Shifted(ents, g, i), x)
    ensures disk[x] !in StageDisk(disk, ents, g, k)
    decreases k
  {
    hide SectorsOf;
    var prev := StageDisk(disk, ents, g, k - 1);
    if k - 1 == i {
      StaysAt(disk, ents, g, lo, hi, i, j, x);
      BesideGap(ents, g, lo, hi, i);
      assert ExtentsApart(ents[i], ents[j]);
      CopyOnlyAt(prev, ents[i].start, Shifted(ents, g, i).start, SectorsOf(ents[i].size), disk[x], x);
    } else {
      Lost(disk, ents, g, lo, hi, k - 1, i, j, x);
      if Moves(ents, g, k - 1) {
        CopyInvents(prev, ents[k - 1].start, Shifted(ents, g, k - 1).start, SectorsOf(ents[k - 1].size), disk[x]);
      }
    }
  }

  lemma CopyInvents(disk: seq<Sector>, old': nat, new': nat, n: nat, v: Sector)
    requires old' + n <= |disk| && new' <= old' && v !in disk
    ensures v !in CopyDown(disk, old', new', n)
  {
  }

  /** The sector that spells out its own number. */
  function Tagged(y: nat): (s: Sector)
    requires y < 0x1_0000_0000
    ensures s.Data? && |s.bytes| == 512
  {
    Data([y % 256, y / 256 % 256, y / 65536 % 256, y / 16777216] + seq(508, _ => 0))
  }

  lemma TaggedInjective(y: nat, z: nat)
    requires y < 0x1_0000_0000 && z < 0x1_0000_0000 && Tagged(y) == Tagged(z)
    ensures y == z
  {
    var a, b := Tagged(y).bytes, Tagged(z).bytes;
    assert a[0] == b[0] && a[1] == b[1] && a[2] == b[2] && a[3] == b[3];
    TaggedValue(y);
    TaggedValue(z);
  }

  lemma TaggedValue(y: nat)
    requires y < 0x1_0000_0000
    ensures y == y % 256 + 256 * (y / 256 % 256) + 65536 * (y / 65536 % 256) + 16777216 * (y / 16777216)
  {
    var a, b := y / 256, y / 65536;
    assert b == a / 256 && y / 16777216 == b / 256;
    assert y == 256 * a + y % 256 && a == 256 * b + a % 256 && b == 256 * (b / 256) + b % 256;
  }

  function TaggedDisk(n: nat): seq<Sector>
    requires n <= 0x1_0000_0000
  {
    seq(n, y requires 0 <= y < n => Tagged(y))
  }

  /** A disk of data sectors. */
  predicate IsDataDisk(disk: seq<Sector>) {
    forall y :: 0 <= y < |disk| ==> disk[y].Data? && |disk[y].bytes| == 512
  }

  /** Every other file reads the same after the compaction, whatever was on the disk. */
  ghost predicate KeepsEveryDisk(ents: seq<Entry>, g: Gap, hi: nat)
    requires OnDisk(ents, hi)
  {
    forall disk, j :: |disk| == hi && IsDataDisk(disk) && 0 <= j < |ents| && j != g.slot && IsFile(ents[j]) ==>
      Kept(disk, ents, g, |ents|, j)
  }

  lemma OverlapLosesContent(ents: seq<Entry>, g: Gap, lo: nat, hi: nat, i: nat, j: nat)
    requires GapOf(ents, g, lo, hi) && hi <= 0x1_0000_0000 && i < j < |ents|
    requires Moves(ents, g, i) && Moves(ents, g, j) && !ExtentsApart(Shifted(ents, g, i), ents[j])
    ensures OnDisk(ents, hi) && !Kept(TaggedDisk(hi), ents, g, |ents|, j)
  {
    hide SectorsOf, StageDisk;
    var disk := TaggedDisk(hi);
    var a := Shifted(ents, g, i);
    var x := if a.start <= ents[j].start then ents[j].start else a.start;
    forall y | 0 <= y < |disk| && disk[y] == disk[x]
      ensures y == x
    {
      TaggedInjective(x, y);
    }
    Lost(disk, ents, g, lo, hi, |ents|, i, j, x);
    var off := x - ents[j].start;
    assert Content(ents[j], disk)[off] == disk[x];
    var e, after := Stage(ents, g, |ents|)[j], StageDisk(disk, ents, g, |ents|);
    assert Content(e, after)[off] in after;
  }

  /**
   Compaction keeps every other file's content, on every disk, exactly when no file is moved onto
   one that the loop has yet to move.
   */
  lemma KeepsContentIff(ents: seq<Entry>, g: Gap, lo: nat, hi: nat)
    requires GapOf(ents, g, lo, hi) && hi <= 0x1_0000_0000
    ensures OnDisk(ents, hi)
    ensures KeepsEveryDisk(ents, g, hi) <==> Safe(ents, g)
  {
    if Safe(ents, g) {
      forall disk, j | |disk| == hi && IsDataDisk(disk) && 0 <= j < |ents| && j != g.slot && IsFile(ents[j])
        ensures Kept(disk, ents, g, |ents|, j)
      {
        SafeKeeps(disk, ents, g, lo, hi, |ents|, j);
      }
    } else {
      var i, j :| 0 <= i < j < |ents| && Moves(ents, g, i) && Moves(ents, g, j)
                  && !ExtentsApart(Shifted(ents, g, i), ents[j]);
      OverlapLosesContent(ents, g, lo, hi, i, j);
      assert IsDataDisk(TaggedDisk(hi));
    }
  }

  // ---------------------------------------------------------------- the bitmap

  lemma GapCleared(bits: seq<bool>, ents: seq<Entry>, g: Gap, lo: nat, hi: nat)
    requires GapOf(ents, g, lo, hi) && BitsExact(bits, ents, -1, lo)
    ensures BitsExact(Mark(bits, lo, g.start, g.length, false), ents, g.slot, lo)
  {
  }

  /** Moving slot `m` from extent to extent, in the bitmap and in the table. */
  lemma MoveMarked(bits: seq<bool>, ents: seq<Entry>, ents': seq<Entry>, skip: nat, m: nat, lo: nat)
    requires BitsExact(bits, ents, skip, lo) && AllApart(ents, skip)
    requires m < |ents| && m != skip && IsFile(ents[m]) && |ents'| == |ents|
    requires ents'[m].size == ents[m].size && IsFile(ents'[m])
    requires forall i :: 0 <= i < |ents| && i != m ==> ents'[i] == ents[i]
    ensures var n := SectorsOf(ents[m].size);
            BitsExact(Mark(Mark(bits, lo, ents[m].start, n, false), lo, ents'[m].start, n, true), ents', skip, lo)
  {
  }

  /** In a safe table the bitmap is exact at every stage of the loop. */
  lemma {:induction false} StageBitsExact(bits: seq<bool>, ents: seq<Entry>, g: Gap, lo: nat, hi: nat, k: nat)
    requires GapOf(ents, g, lo, hi) && Safe(ents, g) && BitsExact(bits, ents, -1, lo) && k <= |ents|
    ensures BitsExact(StageBits(bits, lo, ents, g, k), Stage(ents, g, k), g.slot, lo)
    decreases k
  {
    hide SectorsOf;
    if k == 0 {
      GapCleared(bits, ents, g, lo, hi);
      assert Stage(ents, g, 0) == ents;
    } else {
      StageBitsExact(bits, ents, g, lo, hi, k - 1);
      var s, s' := Stage(ents, g, k - 1), Stage(ents, g, k);
      if Moves(ents, g, k - 1) {
        StageApart(ents, g, lo, hi, k - 1);
        hide Stage, BitsExact, AllApart;
        MoveMarked(StageBits(bits, lo, ents, g, k - 1), s, s', g.slot, k - 1, lo);
      } else {
        assert s' == s;
      }
    }
  }

  /** A sector of file `j` that file `i` has been moved onto stays clear once the loop has passed `j`. */
  lemma {:induction false} StaysClear(bits: seq<bool>, ents: seq<Entry>, g: Gap, lo: nat, hi: nat, k: nat, i: nat,
                                      j: nat, x: nat)
    requires GapOf(ents, g, lo, hi) && hi - lo <= |bits| && i < j < k <= |ents| && lo <= x < hi
    requires Moves(ents, g, i) && Moves(ents, g, j) && InExtent(Shifted(ents, g, i), x) && InExtent(ents[j], x)
    ensures !StageBits(bits, lo, ents, g, k)[x - lo]
    decreases k
  {
    if k > j + 1 {
      StaysClear(bits, ents, g, lo, hi, k - 1, i, j, x);
    }
    if Moves(ents, g, k - 1) {
      NotOnto(ents, g, lo, hi, i, k - 1, x);
    }
    hide SectorsOf, GapOf, Shifted, Moves;
  }

  lemma NotOnto(ents: seq<Entry>, g: Gap, lo: nat, hi: nat, i: nat, m: nat, x: nat)
    requires GapOf(ents, g, lo, hi) && i < m < |ents| && Moves(ents, g, i) && Moves(ents, g, m)
    requires InExtent(Shifted(ents, g, i), x)
    ensures !InExtent(Shifted(ents, g, m), x)
  {
    ShiftedApart(ents, g, lo, hi);
    hide SectorsOf, GapOf;
    var s := Stage(ents, g, |ents|);
    assert s[i] == Shifted(ents, g, i) && s[m] == Shifted(ents, g, m);
    assert ExtentsApart(s[i], s[m]);
  }

  /** After the loop the bitmap is exact exactly when the table was safe. */
  lemma BitsExactIff(bits: seq<bool>, ents: seq<Entry>, g: Gap, lo: nat, hi: nat)
    requires GapOf(ents, g, lo, hi) && BitsExact(bits, ents, -1, lo) && hi - lo <= |bits|
    ensures BitsExact(StageBits(bits, lo, ents, g, |ents|), Stage(ents, g, |ents|), g.slot, lo) <==> Safe(ents, g)
  {
    if Safe(ents, g) {
      StageBitsExact(bits, ents, g, lo, hi, |ents|);
    } else {
      var i, j :| 0 <= i < j < |ents| && Moves(ents, g, i) && Moves(ents, g, j)
                  && !ExtentsApart(Shifted(ents, g, i), ents[j]);
      var s, a := Stage(ents, g, |ents|), Shifted(ents, g, i);
      var x := if a.start <= ents[j].start then ents[j].start else a.start;
      hide SectorsOf, StageBits;
      assert InExtent(ents[j], x) && InExtent(a, x) && lo <= x < hi;
      StaysClear(bits, ents, g, lo, hi, |ents|, i, j, x);
      assert s[i] == a && IsFile(s[i]) && i != g.slot;
      assert OwnedBut(s, g.slot, lo + (x - lo));
    }
  }

  // ---------------------------------------------------------------- holes

  /** The sectors of the files fill the data area from its first sector on, without a hole. */
  ghost predicate HoleFree(ents: seq<Entry>, skip: int, lo: nat) {
    forall x: nat :: x > lo && OwnedBut(ents, skip, x) ==> OwnedBut(ents, skip, x - 1)
  }

  /** Whatever the order of the table, deleting a file from a volume without holes leaves none. */
  lemma StaysHoleFree(ents: seq<Entry>, g: Gap, lo: nat, hi: nat)
    requires GapOf(ents, g, lo, hi) && HoleFree(ents, -1, lo)
    ensures HoleFree(Stage(ents, g, |ents|), g.slot, lo)
  {
    hide SectorsOf, Stage;
    var s := Stage(ents, g, |ents|);
    forall x: nat | x > lo && OwnedBut(s, g.slot, x)
      ensures OwnedBut(s, g.slot, x - 1)
    {
      var i :| 0 <= i < |s| && i != g.slot && IsFile(s[i]) && InExtent(s[i], x);
      BesideGap(ents, g, lo, hi, i);
      if s[i].start < x {
        assert InExtent(s[i], x - 1);
      } else {
        var y := if Moves(ents, g, i) then x + g.length else x;
        assert InExtent(ents[i], y);
        assert OwnedBut(ents, -1, y);
        OwnerBefore(ents, g, lo, hi, i, x, y);
      }
    }
  }

  lemma OwnerBefore(ents: seq<Entry>, g: Gap, lo: nat, hi: nat, i: nat, x: nat, y: nat)
    requires GapOf(ents, g, lo, hi) && HoleFree(ents, -1, lo) && i < |ents| && i != g.slot && IsFile(ents[i])
    requires x > lo && y == (if Moves(ents, g, i) then x + g.length else x) && ents[i].start == y
    ensures OwnedBut(Stage(ents, g, |ents|), g.slot, x - 1)
  {
    hide SectorsOf, Stage;
    var s := Stage(ents, g, |ents|);
    assert InExtent(ents[i], y);
    assert OwnedBut(ents, -1, y) && OwnedBut(ents, -1, y - 1);
    BesideGap(ents, g, lo, hi, i);
    var j :| 0 <= j < |ents| && j != -1 && IsFile(ents[j]) && InExtent(ents[j], y - 1);
    if j == g.slot {
      assert InExtent(ents[j], g.start) && x == g.start;
      assert OwnedBut(ents, -1, g.start) && OwnedBut(ents, -1, g.start - 1);
      var m :| 0 <= m < |ents| && m != -1 && IsFile(ents[m]) && InExtent(ents[m], g.start - 1);
      BesideGap(ents, g, lo, hi, m);
      assert InExtent(s[m], x - 1);
    } else {
      BesideGap(ents, g, lo, hi, j);
      assert InExtent(s[j], x - 1);
    }
  }
}
