/** The compaction that `xcfs_delete` does after removing a file from the bitmap. */
module XcfsCompact {
  import opened XcfsTypes

  /** What the loop needs to know about the deleted file: its table slot and its extent. */
  datatype Gap = Gap(slot: nat, start: nat, length: nat)

  /** The loop moves every other file that starts behind the deleted one. */
  predicate Moves(ents: seq<Entry>, g: Gap, i: nat)
    requires i < |ents|
  {
    i != g.slot && IsFile(ents[i]) && ents[i].start > g.start
  }

  function Shifted(ents: seq<Entry>, g: Gap, i: nat): Entry
    requires i < |ents|
  {
    if Moves(ents, g, i) && ents[i].start >= g.length then ents[i].(start := ents[i].start - g.length) else ents[i]
  }

  /** The table after the loop has passed the first `k` slots. */
  function Stage(ents: seq<Entry>, g: Gap, k: nat): (r: seq<Entry>)
    ensures |r| == |ents|
    ensures forall i :: 0 <= i < |ents| ==> r[i] == if i < k then Shifted(ents, g, i) else ents[i]
  {
    seq(|ents|, i requires 0 <= i < |ents| => if i < k then Shifted(ents, g, i) else ents[i])
  }

  /** The gap is the extent of its slot's file, apart from all others, within a disk of `hi` sectors. */
  ghost predicate GapOf(ents: seq<Entry>, g: Gap, lo: nat, hi: nat) {
    && g.slot < |ents| && IsFile(ents[g.slot])
    && g.start == ents[g.slot].start && g.length == SectorsOf(ents[g.slot].size)
    && AllApart(ents, -1) && AllWithin(ents, lo, hi)
  }

  /** The disk after the loop has passed the first `k` slots. */
  function StageDisk(disk: seq<Sector>, ents: seq<Entry>, g: Gap, k: nat): (r: seq<Sector>)
    requires k <= |ents|
    requires forall i :: 0 <= i < |ents| && IsFile(ents[i]) ==> ents[i].start + SectorsOf(ents[i].size) <= |disk|
    ensures |r| == |disk|
  {
    if k == 0 then disk
    else
      var prev := StageDisk(disk, ents, g, k - 1);
      if Moves(ents, g, k - 1)
      then CopyDown(prev, ents[k - 1].start, Shifted(ents, g, k - 1).start, SectorsOf(ents[k - 1].size))
      else prev
  }

  /** The bitmap after the loop has passed the first `k` slots. */
  function StageBits(bits: seq<bool>, lo: nat, ents: seq<Entry>, g: Gap, k: nat): (r: seq<bool>)
    requires k <= |ents|
    ensures |r| == |bits|
  {
    if k == 0 then Mark(bits, lo, g.start, g.length, false)
    else
      var prev := StageBits(bits, lo, ents, g, k - 1);
      if Moves(ents, g, k - 1)
      then
        var n := SectorsOf(ents[k - 1].size);
        Mark(Mark(prev, lo, ents[k - 1].start, n, false), lo, Shifted(ents, g, k - 1).start, n, true)
      else prev
  }

  // ---------------------------------------------------------------- extents

  /** A file that moves lies wholly behind the gap, one that stays wholly before it. */
  lemma BesideGap(ents: seq<Entry>, g: Gap, lo: nat, hi: nat, i: nat)
    requires GapOf(ents, g, lo, hi) && i < |ents| && i != g.slot && IsFile(ents[i])
    ensures if Moves(ents, g, i) then ents[i].start >= g.start + g.length
            else ents[i].start + SectorsOf(ents[i].size) <= g.start
  {
  }

  /** Whatever the order of the table, the extents after the compaction are apart and inside the data area. */
  lemma ShiftedApart(ents: seq<Entry>, g: Gap, lo: nat, hi: nat)
    requires GapOf(ents, g, lo, hi)
    ensures AllApart(Stage(ents, g, |ents|), g.slot) && AllWithin(Stage(ents, g, |ents|), lo, hi)
  {
    hide SectorsOf, Stage;
    var s := Stage(ents, g, |ents|);
    forall i | 0 <= i < |ents| && i != g.slot && IsFile(ents[i])
      ensures if Moves(ents, g, i) then ents[i].start >= g.start + g.length
              else ents[i].start + SectorsOf(ents[i].size) <= g.start
    {
      BesideGap(ents, g, lo, hi, i);
    }
    forall i, j | 0 <= i < j < |s| && i != g.slot && j != g.slot && IsFile(s[i]) && IsFile(s[j])
      ensures ExtentsApart(s[i], s[j])
    {
      assert ExtentsApart(ents[i], ents[j]);
    }
  }

  /** No file is moved onto one that the loop has yet to move. */
  ghost predicate Safe(ents: seq<Entry>, g: Gap) {
    forall i, j :: 0 <= i < j < |ents| && Moves(ents, g, i) && Moves(ents, g, j) ==>
      ExtentsApart(Shifted(ents, g, i), ents[j])
  }

  /** File entries stand in ascending order of their start sectors. */
  ghost predicate Ascending(ents: seq<Entry>) {
    forall i, j :: 0 <= i < j < |ents| && IsFile(ents[i]) && IsFile(ents[j]) ==> ents[i].start < ents[j].start
  }

  lemma AscendingIsSafe(ents: seq<Entry>, g: Gap, lo: nat, hi: nat)
    requires GapOf(ents, g, lo, hi) && Ascending(ents)
    ensures Safe(ents, g)
  {
  }

  /** In a safe table the extents are apart at every stage of the loop. */
  lemma StageApart(ents: seq<Entry>, g: Gap, lo: nat, hi: nat, k: nat)
    requires GapOf(ents, g, lo, hi) && Safe(ents, g) && k <= |ents|
    ensures AllApart(Stage(ents, g, k), g.slot)
  {
    ShiftedApart(ents, g, lo, hi);
    hide SectorsOf, Stage;
    var s := Stage(ents, g, k);
    var final := Stage(ents, g, |ents|);
    forall i, j | 0 <= i < j < |s| && i != g.slot && j != g.slot && IsFile(s[i]) && IsFile(s[j])
      ensures ExtentsApart(s[i], s[j])
    {
      if j < k || !Moves(ents, g, j) {
        assert ExtentsApart(final[i], final[j]);
        assert ExtentsApart(ents[i], ents[j]);
      } else {
        assert ExtentsApart(ents[i], ents[j]);
        assert i < k && !Moves(ents, g, i) ==> s[i] == ents[i];
      }
    }
  }
}
