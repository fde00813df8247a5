/** The directory tree in the entry table: lookup, parent links, removal by swapping with the last slot. */
module XcfsTree {
  import opened XcfsTypes
  import opened Options

  type Table = seq<Entry>

  /** `fe`: the first entry with that path. */
  function Find(t: Table, path: string): (r: Option<nat>)
    ensures r.Some? ==> r.value < |t| && t[r.value].path == path && forall i :: 0 <= i < r.value ==> t[i].path != path
    ensures r.None? ==> forall i :: 0 <= i < |t| ==> t[i].path != path
  {
    if t == [] then None
    else if t[0].path == path then Some(0)
    else
      match Find(t[1..], path)
      case None =>
        assert forall i :: 1 <= i < |t| ==> t[i] == t[1..][i - 1];
        None
      case Some(i) =>
        assert forall k :: 1 <= k < |t| ==> t[k] == t[1..][k - 1];
        Some(i + 1)
  }

  /** The position of the last slash behind the first character, or 0. */
  function LastSlash(p: string, last: nat): (r: nat)
    requires last < |p|
    ensures r <= last
  {
    if last > 0 && p[last] != '/' then LastSlash(p, last - 1) else last
  }

  /** The path of the directory that holds `p`, as `fp` cuts it off. */
  function Dirname(p: string): string
    requires p != ""
  {
    var last := LastSlash(p, |p| - 1);
    if last == 0 then "/" else p[..last]
  }

  // ---------------------------------------------------------------- the directory of a path

  /** `p` is `d`, a slash, and a name without one. */
  predicate Joined(p: string, d: string, name: string) {
    p == d + "/" + name && '/' !in name
  }

  /** A name without a slash in `p` lies in directory `dir`; in front of its slash the root is written as nothing. */
  ghost predicate LiesIn(p: string, dir: string) {
    if '/' in p then exists d, name :: Joined(p, d, name) && dir == if d == "" then "/" else d
    else dir == "/"
  }

  lemma {:induction false} LastSlashIs(p: string, last: nat)
    requires last < |p|
    ensures var r := LastSlash(p, last); (r > 0 ==> p[r] == '/') && forall k :: r < k <= last ==> p[k] != '/'
    decreases last
  {
    if last > 0 && p[last] != '/' {
      LastSlashIs(p, last - 1);
    }
  }

  /** The directory of `d/name` is `d`, or the root when `d` is empty. */
  lemma DirnameOfName(d: string, name: string)
    requires '/' !in name
    ensures Dirname(d + "/" + name) == if d == "" then "/" else d
  {
    var p := d + "/" + name;
    LastSlashIs(p, |p| - 1);
    var r := LastSlash(p, |p| - 1);
    assert p[|d|] == '/' && forall k :: |d| < k < |p| ==> p[k] == name[k - |d| - 1];
    assert r == |d|;
    assert p[..|d|] == d;
  }

  /** The directory that `fp` cuts off is the one the path lies in, for every path. */
  lemma DirnameIff(p: string, dir: string)
    requires p != ""
    ensures dir == Dirname(p) <==> LiesIn(p, dir)
  {
    LastSlashIs(p, |p| - 1);
    var r := LastSlash(p, |p| - 1);
    hide LastSlash;
    if '/' in p {
      assert p[r] == '/' by {
        var k :| 0 <= k < |p| && p[k] == '/';
      }
      assert Joined(p, p[..r], p[r + 1..]);
      forall d, name | Joined(p, d, name)
        ensures Dirname(p) == if d == "" then "/" else d
      {
        DirnameOfName(d, name);
      }
    }
  }

  /** `fp`. */
  function FindParent(t: Table, p: string): Option<nat> {
    if p == "" then None else if p == "/" then Some(0) else Find(t, Dirname(p))
  }

  predicate RootAtZero(t: Table) {
    t != [] && t[0].path == "/" && t[0].kind == DIR && t[0].parent == 0
  }

  predicate DistinctPaths(t: Table) {
    forall i, j :: 0 <= i < j < |t| ==> t[i].path != t[j].path
  }

  /** Entry `i` names as its parent the directory its path lies in. */
  predicate ParentOk(t: Table, i: nat)
    requires i < |t|
  {
    && t[i].path != "" && t[i].parent < |t|
    && t[t[i].parent].path == Dirname(t[i].path) && t[t[i].parent].kind == DIR
  }

  predicate TreeOk(t: Table) {
    RootAtZero(t) && DistinctPaths(t) && forall i :: 1 <= i < |t| ==> ParentOk(t, i)
  }

  /** Every entry but the root lies in the directory that it names as its parent. */
  lemma TreeLies(t: Table, i: nat)
    requires TreeOk(t) && 1 <= i < |t|
    ensures t[i].parent < |t| && t[t[i].parent].kind == DIR && LiesIn(t[i].path, t[t[i].parent].path)
  {
    assert ParentOk(t, i);
    DirnameIff(t[i].path, t[t[i].parent].path);
  }

  /** `fp` finds the first entry with the directory of the path, if there is one. */
  lemma FindParentLies(t: Table, p: string)
    requires p != "" && p != "/"
    ensures FindParent(t, p).Some? ==>
              var d := FindParent(t, p).value;
              d < |t| && LiesIn(p, t[d].path) && forall i :: 0 <= i < d ==> !LiesIn(p, t[i].path)
    ensures FindParent(t, p).None? ==> forall i :: 0 <= i < |t| ==> !LiesIn(p, t[i].path)
  {
    hide Dirname, LiesIn;
    forall i | 0 <= i < |t|
      ensures t[i].path == Dirname(p) <==> LiesIn(p, t[i].path)
    {
      DirnameIff(p, t[i].path);
    }
  }

  // ---------------------------------------------------------------- adding

  lemma FindUnique(t: Table, i: nat)
    requires i < |t| && DistinctPaths(t)
    ensures Find(t, t[i].path) == Some(i)
  {
  }

  /** Adding an entry under the parent that `fp` found keeps the tree exactly when that parent is a directory. */
  lemma AddKeepsTreeIff(t: Table, e: Entry)
    requires TreeOk(t) && Find(t, e.path).None? && FindParent(t, e.path) == Some(e.parent)
    ensures e.parent < |t| && (TreeOk(t + [e]) <==> t[e.parent].kind == DIR)
  {
    var t' := t + [e];
    assert e.path != "/" by { assert t[0].path == "/"; }
    hide Find, Dirname;
    assert forall i :: 0 <= i < |t| ==> t'[i] == t[i];
    assert t'[|t|] == e;
    if t[e.parent].kind == DIR {
      forall i | 1 <= i < |t'|
        ensures ParentOk(t', i)
      {
        if i < |t| {
          assert ParentOk(t, i);
        }
      }
    } else {
      assert !ParentOk(t', |t|);
    }
  }

  // ---------------------------------------------------------------- removing

  /** The table without slot `u`: the last entry takes its place, and its children follow it. */
  function Removed(t: Table, u: nat): (r: Table)
    requires u < |t|
    ensures |r| == |t| - 1
  {
    var last: nat := |t| - 1;
    seq(last, i requires 0 <= i < last => Reparented(if i == u then t[last] else t[i], u, last))
  }

  function Reparented(e: Entry, u: nat, last: nat): Entry {
    if u != last && e.parent == last then e.(parent := u) else e
  }

  ghost predicate HasChild(t: Table, u: nat) {
    exists i :: 0 <= i < |t| && i != u && t[i].parent == u
  }

  /** Where slot `i` of the shrunken table comes from. */
  function Source(t: Table, u: nat, i: nat): (k: nat)
    requires u < |t| && i < |t| - 1
    ensures k < |t| && k != u
  {
    if i == u then |t| - 1 else i
  }

  lemma RemovedSource(t: Table, u: nat, i: nat)
    requires u < |t| && i < |t| - 1
    ensures var k := Source(t, u, i); Removed(t, u)[i] == Reparented(t[k], u, |t| - 1)
    ensures Removed(t, u)[i].path == t[Source(t, u, i)].path && Removed(t, u)[i].kind == t[Source(t, u, i)].kind
  {
  }

  lemma RemovedParentOk(t: Table, u: nat, i: nat)
    requires TreeOk(t) && 0 < u < |t| && !HasChild(t, u) && 1 <= i < |t| - 1
    ensures ParentOk(Removed(t, u), i)
  {
    hide Dirname, Removed;
    var k := Source(t, u, i);
    var last: nat := |t| - 1;
    assert ParentOk(t, k);
    RemovedSource(t, u, i);
    var p := t[k].parent;
    assert p != u;
    if p == last && u != last {
      RemovedSource(t, u, u);
    } else {
      RemovedSource(t, u, p);
    }
  }

  /** Removing an entry keeps the tree exactly when no entry has it as its parent. */
  lemma RemoveKeepsTreeIff(t: Table, u: nat)
    requires TreeOk(t) && 0 < u < |t|
    ensures TreeOk(Removed(t, u)) <==> !HasChild(t, u)
  {
    var r := Removed(t, u);
    forall i: nat | i < |r|
      ensures r[i].path == t[Source(t, u, i)].path
    {
      RemovedSource(t, u, i);
    }
    RemovedSource(t, u, 0);
    if HasChild(t, u) {
      var c :| 0 <= c < |t| && c != u && t[c].parent == u;
      var i := if c == |t| - 1 then u else c;
      if u < |t| - 1 {
        RemovedSource(t, u, i);
        RemovedSource(t, u, u);
        assert ParentOk(t, c);
        assert !ParentOk(r, i);
      } else {
        RemovedSource(t, u, i);
        assert !ParentOk(r, i);
      }
    } else {
      forall i | 1 <= i < |r|
        ensures ParentOk(r, i)
      {
        RemovedParentOk(t, u, i);
      }
      forall i, j | 0 <= i < j < |r|
        ensures r[i].path != r[j].path
      {
        assert Source(t, u, i) != Source(t, u, j);
      }
    }
  }

  // ---------------------------------------------------------------- listing

  /** In a tree the entries whose parent is `d` are those whose path lies directly in `d`. */
  lemma ChildIffDirname(t: Table, d: nat, i: nat)
    requires TreeOk(t) && d < |t| && i < |t| && i != d
    ensures t[i].path != ""
    ensures t[i].parent == d <==> Dirname(t[i].path) == t[d].path
    ensures t[i].parent == d <==> LiesIn(t[i].path, t[d].path)
  {
    DirnameIff(t[i].path, t[d].path) by { assert i > 0 ==> ParentOk(t, i); }
    if i == 0 {
      assert Dirname("/") == "/";
    } else {
      assert ParentOk(t, i);
    }
  }

  /** The slots that `xcfs_readdir` lists for slot `d`, from slot `i` on. */
  function Slots(t: Table, d: nat, i: nat): (r: seq<nat>)
    requires i <= |t|
    ensures forall k :: 0 <= k < |r| ==> i <= r[k] < |t|
    decreases |t| - i
  {
    if i == |t| then []
    else if i != d && t[i].parent == d then [i] + Slots(t, d, i + 1)
    else Slots(t, d, i + 1)
  }

  /** The slots, from `i` on, whose path lies directly in the directory of slot `d`. */
  ghost function Inside(t: Table, d: nat, i: nat): seq<nat>
    requires d < |t| && i <= |t|
    decreases |t| - i
  {
    if i == |t| then []
    else if i != d && LiesIn(t[i].path, t[d].path) then [i] + Inside(t, d, i + 1)
    else Inside(t, d, i + 1)
  }

  /** In a tree `xcfs_readdir` lists exactly the entries that lie in the directory, in table order. */
  lemma {:induction false} SlotsAreInside(t: Table, d: nat, i: nat)
    requires TreeOk(t) && d < |t| && i <= |t|
    ensures Slots(t, d, i) == Inside(t, d, i)
    decreases |t| - i
  {
    hide TreeOk, LiesIn, Dirname;
    if i < |t| {
      SlotsAreInside(t, d, i + 1);
      if i != d {
        ChildIffDirname(t, d, i);
      }
    }
  }

  // ---------------------------------------------------------------- the names listed

  /** The part of a path behind its last slash. */
  function Basename(p: string): string {
    if p == "" then "" else if p[|p| - 1] == '/' then "" else Basename(p[..|p| - 1]) + [p[|p| - 1]]
  }

  /** The name of `d/name` is `name`. */
  lemma {:induction false} BasenameOfName(d: string, name: string)
    requires '/' !in name
    ensures Basename(d + "/" + name) == name
    decreases |name|
  {
    var p := d + "/" + name;
    if name != "" {
      var init := name[..|name| - 1];
      BasenameOfName(d, init);
      assert p[..|p| - 1] == d + "/" + init;
      assert init + [name[|name| - 1]] == name;
    }
  }

  /** A path that starts with one slash, as `np` returns it. */
  predicate Rooted(p: string) {
    p == "/" || (|p| >= 2 && p[0] == '/' && p[1] != '/')
  }

  ghost predicate AllRooted(t: Table) {
    forall i :: 0 <= i < |t| ==> Rooted(t[i].path)
  }

  /** What stands in front of the names in directory `d`: its path and a slash, and for the root the slash alone. */
  function Prefix(t: Table, d: nat): string
    requires d < |t|
  {
    if d == 0 then "/" else t[d].path + "/"
  }

  lemma {:induction false} SlotsAre(t: Table, d: nat, i: nat)
    requires i <= |t|
    ensures forall k :: k in Slots(t, d, i) <==> i <= k < |t| && k != d && t[k].parent == d
    ensures forall a, b :: 0 <= a < b < |Slots(t, d, i)| ==> Slots(t, d, i)[a] < Slots(t, d, i)[b]
    decreases |t| - i
  {
    if i < |t| {
      SlotsAre(t, d, i + 1);
    }
  }

  /** In a tree slot `k` lies in directory `d` exactly when its path is the prefix of `d` and its own name. */
  lemma ChildIffPrefix(t: Table, d: nat, k: nat, name: string)
    requires TreeOk(t) && AllRooted(t) && d < |t| && k < |t| && k != d && '/' !in name
    ensures t[k].parent == d && Basename(t[k].path) == name <==> t[k].path == Prefix(t, d) + name
  {
    ChildIffDirname(t, d, k);
    var p, dir := t[k].path, t[d].path;
    assert d > 0 ==> dir != "/" by { assert t[0].path == "/"; }
    hide TreeOk, Basename, Dirname;
    if LiesIn(p, dir) {
      var parent, own :| Joined(p, parent, own) && dir == if parent == "" then "/" else parent;
      BasenameOfName(parent, own);
      assert parent != "/" by { assert Rooted(p); }
      assert p == Prefix(t, d) + own;
      assert Basename(p) == own;
    }
    if p == Prefix(t, d) + name {
      var parent := if d == 0 then "" else dir;
      assert Joined(p, parent, name);
      BasenameOfName(parent, name);
      assert p[|parent|] == '/';
      assert LiesIn(p, dir);
    }
  }

  /**
   In a tree the names that `xcfs_readdir` lists for a directory are those of the paths that are the
   directory's path, a slash, and the name, and it lists each once.
   */
  lemma ListedNames(t: Table, d: nat, name: string)
    requires TreeOk(t) && AllRooted(t) && d < |t| && '/' !in name
    ensures var slots := Slots(t, d, 0);
            && ((exists a :: 0 <= a < |slots| && Basename(t[slots[a]].path) == name)
                <==> exists k :: 0 <= k < |t| && k != d && t[k].path == Prefix(t, d) + name)
            && forall a, b :: 0 <= a < b < |slots| ==> Basename(t[slots[a]].path) != Basename(t[slots[b]].path)
  {
    var slots := Slots(t, d, 0);
    SlotsAre(t, d, 0);
    hide TreeOk, AllRooted, Basename, Slots, Prefix;
    forall k | 0 <= k < |t| && k != d
      ensures k in slots && Basename(t[k].path) == name <==> t[k].path == Prefix(t, d) + name
    {
      ChildIffPrefix(t, d, k, name);
    }
    if exists k :: 0 <= k < |t| && k != d && t[k].path == Prefix(t, d) + name {
      var k :| 0 <= k < |t| && k != d && t[k].path == Prefix(t, d) + name;
      assert k in slots;
    }
    forall a, b | 0 <= a < b < |slots|
      ensures Basename(t[slots[a]].path) != Basename(t[slots[b]].path)
    {
      NamesDiffer(t, d, slots[a], slots[b]);
    }
  }

  lemma NamesDiffer(t: Table, d: nat, i: nat, k: nat)
    requires TreeOk(t) && AllRooted(t) && d < |t| && i < k < |t| && i != d && k != d
    requires t[i].parent == d && t[k].parent == d
    ensures Basename(t[i].path) != Basename(t[k].path)
  {
    NoSlashInName(t[i].path);
    assert t[i].path != t[k].path;
    hide TreeOk, AllRooted, Basename, Prefix;
    ChildIffPrefix(t, d, i, Basename(t[i].path));
    ChildIffPrefix(t, d, k, Basename(t[i].path));
  }

  lemma {:induction false} NoSlashInName(p: string)
    ensures '/' !in Basename(p)
    decreases |p|
  {
    if p != "" {
      NoSlashInName(p[..|p| - 1]);
    }
  }
}
