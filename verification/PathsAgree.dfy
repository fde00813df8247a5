/** Where the two normalisers agree. */
module PathsAgree {
  import opened Paths

  // ---------------------------------------------------------------- np as a stack machine

  /**
   The buffer of `np` as a stack: its segments, and whether it still ends in the slash that a `..`
   left behind.
   */
  datatype Buffer = Buffer(segs: Segments, trailing: bool)

  /** The path `/`. */
  const ROOT: Buffer := Buffer([], false)

  predicate BufferOk(b: Buffer) {
    && (forall i :: 0 <= i < |b.segs| ==> '/' !in b.segs[i])
    && (b.trailing ==> b.segs != [])
    && (!b.trailing && b.segs != [] ==> b.segs[|b.segs| - 1] != "")
  }

  /** `/a/b/` for the segments a, b. */
  function Base(segs: Segments): (r: string)
    ensures r != "" && r[|r| - 1] == '/'
  {
    if segs == [] then "/" else Base(segs[..|segs| - 1]) + segs[|segs| - 1] + "/"
  }

  function Show(b: Buffer): (r: string)
    ensures r != ""
  {
    if b.trailing || b.segs == [] then Base(b.segs)
    else Base(b.segs[..|b.segs| - 1]) + b.segs[|b.segs| - 1]
  }

  function BufferPush(b: Buffer, seg: string): Buffer {
    if seg == "" || seg == "." then b
    else if seg == ".." then
      if b.segs == [] then b else Buffer(b.segs[..|b.segs| - 1], |b.segs| > 1)
    else Buffer(if b.trailing then b.segs + ["", seg] else b.segs + [seg], false)
  }

  function BufferReduce(segs: Segments, b: Buffer): Buffer
    decreases |segs|
  {
    if segs == [] then b else BufferReduce(segs[1..], BufferPush(b, segs[0]))
  }

  lemma {:induction false} DropNameStops(base: string, s: string)
    requires base != "" && base[|base| - 1] == '/' && '/' !in s
    ensures DropName(base + s) == base
    decreases |s|
  {
    if s == "" {
      assert base + s == base;
    } else {
      var t := s[..|s| - 1];
      assert (base + s)[..|base + s| - 1] == base + t;
      assert (base + s)[|base + s| - 1] == s[|s| - 1];
      DropNameStops(base, t);
    }
  }

  lemma PopShown(b: Buffer)
    requires BufferOk(b) && b.segs != []
    ensures PopBuffer(Show(b)) == Show(BufferPush(b, ".."))
  {
    var n := |b.segs|;
    var base, last := Base(b.segs[..n - 1]), b.segs[n - 1];
    if b.trailing {
      assert Show(b)[..|Show(b)| - 1] == base + last;
      DropNameStops(base, last);
    } else {
      var cut := last[..|last| - 1];
      assert Show(b)[..|Show(b)| - 1] == base + cut;
      DropNameStops(base, cut);
    }
  }

  lemma PushShown(b: Buffer, name: string)
    requires BufferOk(b) && IsName(name) && name != "." && name != ".."
    ensures (if |Show(b)| > 1 then Show(b) + "/" else Show(b)) + name == Show(BufferPush(b, name))
  {
    var c := BufferPush(b, name);
    if b.segs == [] {
      assert c.segs == [name] && c.segs[..0] == [];
      assert Base([]) + name == "/" + name;
    } else {
      BaseIsLong(b.segs);
      var n := |b.segs|;
      if b.trailing {
        assert c.segs[..n + 1] == b.segs + [""];
        assert (b.segs + [""])[..n] == b.segs;
        assert Base(b.segs + [""]) == Base(b.segs) + "" + "/";
        assert Base(b.segs) + "" + "/" == Base(b.segs) + "/";
      } else {
        assert c.segs[..n] == b.segs;
        assert Base(b.segs) == Show(b) + "/";
      }
    }
  }

  lemma BaseIsLong(segs: Segments)
    requires segs != []
    ensures |Base(segs)| > 1
  {
  }

  lemma {:induction false} SplitFirst(t: string)
    ensures var n := NameLength(t);
            Split(t) == if n < |t| then [t[..n]] + Split(t[n + 1..]) else [t]
  {
    var n := NameLength(t);
    if n < |t| {
      assert t == t[..n] + "/" + t[n + 1..];
      SplitAtSlash(t[..n], t[n + 1..]);
    } else {
      assert t[..n] == t;
      SplitName(t);
    }
  }

  lemma DotsAreSegments(t: string)
    requires t != "" && t[0] != '/'
    ensures var s := t[..NameLength(t)]; IsName(s) && (DotAt(t) <==> s == ".") && (DotsAt(t) <==> s == "..")
  {
  }

  lemma ScanDot(t: string, buf: string)
    requires buf != "" && t != "" && t[0] != '/' && t[..NameLength(t)] == "."
    ensures var n := NameLength(t); Scan(t, buf) == Scan(if n < |t| then t[n + 1..] else "", buf)
  {
  }

  lemma ScanDots(t: string, buf: string)
    requires buf != "" && t != "" && t[0] != '/' && t[..NameLength(t)] == ".."
    ensures var n := NameLength(t); Scan(t, buf) == Scan(if n < |t| then t[n + 1..] else "", PopBuffer(buf))
  {
  }

  lemma ScanName(t: string, buf: string)
    requires buf != "" && t != "" && t[0] != '/' && t[..NameLength(t)] != "." && t[..NameLength(t)] != ".."
    ensures var n := NameLength(t);
            Scan(t, buf) == Scan(if n < |t| then t[n + 1..] else "", (if |buf| > 1 then buf + "/" else buf) + t[..n])
  {
  }

  /** One segment of the input moves the scan to the rest and pushes the segment. */
  lemma ScanSegment(t: string, b: Buffer)
    requires t != "" && t[0] != '/' && BufferOk(b)
    ensures var n := NameLength(t); var b' := BufferPush(b, t[..n]);
            BufferOk(b') && Scan(t, Show(b)) == Scan(if n < |t| then t[n + 1..] else "", Show(b'))
  {
    DotsAreSegments(t);
    hide Scan, NameLength, DotAt, DotsAt, Show, Base, PopBuffer, BufferOk, IsName;
    var s := t[..NameLength(t)];
    if s == "." {
      ScanDot(t, Show(b));
    } else if s == ".." {
      ScanDots(t, Show(b));
      PopsShown(b);
    } else {
      ScanName(t, Show(b));
      PushShown(b, s);
    }
  }

  lemma RootPops(b: Buffer)
    requires BufferOk(b) && b.segs == []
    ensures PopBuffer(Show(b)) == Show(b)
  {
  }

  lemma PopsShown(b: Buffer)
    requires BufferOk(b)
    ensures BufferOk(BufferPush(b, "..")) && PopBuffer(Show(b)) == Show(BufferPush(b, ".."))
  {
    if b.segs == [] {
      RootPops(b);
    } else {
      PopShown(b);
    }
  }

  /** The scan of `np` is the stack machine run over the segments of its input. */
  lemma {:induction false} ScanIsReduce(t: string, b: Buffer)
    requires BufferOk(b)
    ensures Scan(t, Show(b)) == Show(BufferReduce(Split(t), b))
    ensures BufferOk(BufferReduce(Split(t), b))
    decreases |t|
  {
    var n := NameLength(t);
    SplitFirst(t);
    if t == "" {
      assert [""][1..] == [];
      assert BufferReduce([""], b) == BufferReduce([], b);
    } else {
      var rest := if n < |t| then t[n + 1..] else "";
      if t[0] == '/' {
        ScanIsReduce(rest, b);
        assert ([""] + Split(rest))[1..] == Split(rest);
      } else {
        var s := t[..n];
        ScanSegment(t, b);
        var b' := BufferPush(b, s);
        ScanIsReduce(rest, b');
        if n < |t| {
          assert ([s] + Split(rest))[1..] == Split(rest);
        } else {
          assert s == t && [t][1..] == [] && Split("") == [""] && [""][1..] == [];
          assert BufferReduce([""], b') == BufferReduce([], b');
        }
      }
    }
  }

  lemma {:induction false} JoinLast(segs: Segments)
    requires segs != []
    ensures var init := segs[..|segs| - 1];
            Join(segs) == if init == [] then segs[0] else Join(init) + "/" + segs[|segs| - 1]
  {
    if |segs| > 1 {
      var init := segs[..|segs| - 1];
      JoinLast(segs[1..]);
      assert segs[1..][..|segs| - 2] == init[1..];
      if |init| > 1 {
        assert Join(segs) == init[0] + "/" + (Join(init[1..]) + "/" + segs[|segs| - 1]);
        assert Join(segs) == init[0] + "/" + Join(init[1..]) + "/" + segs[|segs| - 1];
      }
    }
  }

  lemma {:induction false} BaseIsJoin(segs: Segments)
    requires segs != []
    ensures Base(segs) == "/" + Join(segs) + "/"
    decreases |segs|
  {
    var init := segs[..|segs| - 1];
    JoinLast(segs);
    if init != [] {
      BaseIsJoin(init);
      assert "/" + Join(init) + "/" + segs[|segs| - 1] + "/" == "/" + (Join(init) + "/" + segs[|segs| - 1]) + "/";
    } else {
      assert Base(init) == "/";
    }
  }

  /** What `np` returns is its stack, joined. */
  lemma StripShown(b: Buffer)
    requires BufferOk(b)
    ensures StripSlash(Show(b)) == "/" + Join(b.segs)
  {
    if b.segs != [] {
      var n := |b.segs|;
      BaseIsJoin(b.segs);
      BaseIsLong(b.segs);
      if b.trailing {
        assert Show(b)[..|Show(b)| - 1] == "/" + Join(b.segs);
      } else {
        assert Show(b) + "/" == Base(b.segs);
        assert (Show(b) + "/")[..|Show(b)|] == Show(b);
        assert Show(b) == "/" + Join(b.segs);
        var last := b.segs[n - 1];
        assert Show(b)[|Show(b)| - 1] == last[|last| - 1];
      }
    }
  }

  /** `np` of an absolute path, through the stack machine. */
  lemma NpIsReduce(cwd: string, p: string)
    requires p != "" && p[0] == '/'
    ensures Np(cwd, p) == "/" + Join(BufferReduce(Split(p), ROOT).segs)
  {
    var b := ROOT;
    assert Show(b) == "/";
    assert Split(p) == [""] + Split(p[1..]);
    assert ([""] + Split(p[1..]))[1..] == Split(p[1..]);
    ScanIsReduce(p[1..], b);
    StripShown(BufferReduce(Split(p[1..]), b));
  }

  lemma {:induction false} FirstStays(segs: Segments, b: Buffer)
    requires b.segs != [] ==> IsName(b.segs[0])
    requires b.trailing ==> b.segs != []
    requires forall i :: 0 <= i < |segs| ==> '/' !in segs[i]
    ensures var s := BufferReduce(segs, b).segs; s != [] ==> IsName(s[0])
    decreases |segs|
  {
    if segs != [] {
      FirstStays(segs[1..], BufferPush(b, segs[0]));
    }
  }

  /** Every path `np` returns starts with one slash and not with two. */
  lemma NpIsRooted(cwd: string, p: string)
    ensures Np(cwd, p) == "/" || (|Np(cwd, p)| >= 2 && Np(cwd, p)[0] == '/' && Np(cwd, p)[1] != '/')
  {
    var t := Absolute(cwd, p);
    var q := if t == "" then "" else t[1..];
    var b := BufferReduce(Split(q), ROOT);
    assert Show(ROOT) == "/";
    ScanIsReduce(q, ROOT);
    FirstStays(Split(q), ROOT);
    hide Scan, Show, BufferReduce, BufferOk;
    StripShown(b);
  }

  // ---------------------------------------------------------------- agreement

  /** A name comes while the buffer still ends in the slash that a `..` left on a non-root path. */
  predicate NameAfterPop(segs: Segments, b: Buffer)
    decreases |segs|
  {
    segs != [] &&
    ((b.trailing && segs[0] != "" && segs[0] != "." && segs[0] != "..")
     || NameAfterPop(segs[1..], BufferPush(b, segs[0])))
  }

  lemma {:induction false} NoNameAgrees(segs: Segments, b: Buffer)
    requires !NameAfterPop(segs, b)
    ensures BufferReduce(segs, b).segs == Reduce(segs, b.segs)
    decreases |segs|
  {
    if segs != [] {
      assert BufferPush(b, segs[0]).segs == Push(b.segs, segs[0]);
      NoNameAgrees(segs[1..], BufferPush(b, segs[0]));
    }
  }

  lemma {:induction false} PrefixHasNoName(segs: Segments, b: Buffer, k: nat)
    requires k <= |segs| && !NameAfterPop(segs, b)
    ensures !NameAfterPop(segs[..k], b)
    decreases |segs|
  {
    if k > 0 {
      PrefixHasNoName(segs[1..], BufferPush(b, segs[0]), k - 1);
      assert segs[..k][1..] == segs[1..][..k - 1];
    }
  }

  /** At the first such name the two stacks part: `np` has an empty segment in front of it. */
  lemma {:induction false} FirstNameParts(segs: Segments, b: Buffer) returns (k: nat)
    requires NameAfterPop(segs, b) && (b.trailing ==> b.segs != [])
    ensures 0 < k <= |segs|
    ensures exists pre: Segments, name ::
              pre != [] && BufferReduce(segs[..k], b).segs == pre + ["", name]
                && Reduce(segs[..k], b.segs) == pre + [name]
    decreases |segs|
  {
    if b.trailing && segs[0] != "" && segs[0] != "." && segs[0] != ".." {
      k := 1;
      assert segs[..1] == [segs[0]] && [segs[0]][1..] == [];
      assert BufferReduce([segs[0]], b) == BufferReduce([], BufferPush(b, segs[0]));
      assert Reduce([segs[0]], b.segs) == Reduce([], Push(b.segs, segs[0]));
      assert BufferReduce(segs[..1], b).segs == b.segs + ["", segs[0]]
          && Reduce(segs[..1], b.segs) == b.segs + [segs[0]];
    } else {
      assert BufferPush(b, segs[0]).segs == Push(b.segs, segs[0]);
      var j := FirstNameParts(segs[1..], BufferPush(b, segs[0]));
      k := j + 1;
      assert segs[..k][1..] == segs[1..][..j];
    }
  }

  lemma EmptySegmentShows(pre: Segments, name: string)
    requires pre != []
    ensures |Join(pre + ["", name])| == |Join(pre + [name])| + 1
  {
    JoinLast(pre + ["", name]);
    assert (pre + ["", name])[..|pre| + 1] == pre + [""];
    JoinLast(pre + [""]);
    assert (pre + [""])[..|pre|] == pre;
    JoinLast(pre + [name]);
    assert (pre + [name])[..|pre|] == pre;
  }

  lemma NormIsReduce(p: string)
    requires p != "" && p[0] == '/'
    ensures Norm(p) == "/" + Join(Reduce(Split(p), []))
  {
  }

  /** The path of the first `k` segments of `p`. */
  function Upto(p: string, k: nat): string
    requires k <= |Split(p)|
  {
    Join(Split(p)[..k])
  }

  lemma UptoSplits(p: string, k: nat)
    requires p != "" && p[0] == '/' && 2 <= k <= |Split(p)|
    ensures Split(Upto(p, k)) == Split(p)[..k] && Upto(p, k) != "" && Upto(p, k)[0] == '/'
  {
    SplitJoin(Split(p)[..k]);
    assert Split(p)[..k][0] == "";
  }

  /** On an absolute path with no name after such a `..`, both normalisers return the same path. */
  lemma Agree(cwd: string, p: string)
    requires p != "" && p[0] == '/' && !NameAfterPop(Split(p), ROOT)
    ensures Np(cwd, p) == Norm(p)
  {
    NpIsReduce(cwd, p);
    NormIsReduce(p);
    NoNameAgrees(Split(p), ROOT);
  }

  /** They agree on an absolute path and all its leading parts exactly when no such name occurs. */
  lemma AgreeIff(cwd: string, p: string)
    requires p != "" && p[0] == '/'
    ensures (forall k :: 2 <= k <= |Split(p)| ==> Np(cwd, Upto(p, k)) == Norm(Upto(p, k)))
            <==> !NameAfterPop(Split(p), ROOT)
  {
    var b := ROOT;
    var segs := Split(p);
    if NameAfterPop(segs, b) {
      var k := FirstNameParts(segs, b);
      var pre: Segments, name :|
        pre != [] && BufferReduce(segs[..k], b).segs == pre + ["", name] && Reduce(segs[..k], b.segs) == pre + [name];
      AtLeastTwo(segs, b, k, pre + [name]);
      UptoSplits(p, k);
      NpIsReduce(cwd, Upto(p, k));
      NormIsReduce(Upto(p, k));
      EmptySegmentShows(pre, name);
      assert Np(cwd, Upto(p, k)) != Norm(Upto(p, k));
    } else {
      forall k | 2 <= k <= |segs|
        ensures Np(cwd, Upto(p, k)) == Norm(Upto(p, k))
      {
        UptoSplits(p, k);
        PrefixHasNoName(segs, b, k);
        Agree(cwd, Upto(p, k));
      }
    }
  }

  // ---------------------------------------------------------------- agreement on the path itself

  /** As `np` leaves it: a path starts with a name, and a slash is left over only behind one. */
  predicate StartsNamed(b: Buffer) {
    (b.segs != [] ==> b.segs[0] != "") && (b.trailing ==> b.segs != [])
  }

  /** The stacks are equal, or that of `np` is the longer one. */
  predicate Ahead(b: Buffer, parts: Segments) {
    StartsNamed(b) && (b.segs == parts || |b.segs| > |parts|)
  }

  /** One segment keeps `np` ahead, and a longer stack becomes equal only at the root. */
  lemma PushAhead(b: Buffer, parts: Segments, seg: string)
    requires Ahead(b, parts)
    ensures var b', parts' := BufferPush(b, seg), Push(parts, seg);
            && Ahead(b', parts')
            && (b.segs != parts && b'.segs == parts' ==> b' == ROOT)
            && (b.segs == parts ==>
                  (b'.segs == parts' <==> !(b.trailing && seg != "" && seg != "." && seg != "..")))
  {
  }

  lemma {:induction false} ReduceAhead(segs: Segments, b: Buffer, parts: Segments)
    requires Ahead(b, parts)
    ensures Ahead(BufferReduce(segs, b), Reduce(segs, parts))
    decreases |segs|
  {
    if segs != [] {
      PushAhead(b, parts, segs[0]);
      ReduceAhead(segs[1..], BufferPush(b, segs[0]), Push(parts, segs[0]));
    }
  }

  lemma {:induction false} ReduceFrom(segs: Segments, b: Buffer, parts: Segments, k: nat)
    requires k <= |segs|
    ensures BufferReduce(segs, b) == BufferReduce(segs[k..], BufferReduce(segs[..k], b))
    ensures Reduce(segs, parts) == Reduce(segs[k..], Reduce(segs[..k], parts))
    decreases |segs|
  {
    if k > 0 {
      assert segs[..k][1..] == segs[1..][..k - 1] && segs[1..][k - 1..] == segs[k..];
      ReduceFrom(segs[1..], BufferPush(b, segs[0]), Push(parts, segs[0]), k - 1);
    } else {
      assert segs[0..] == segs && segs[..0] == [];
    }
  }

  /** After `k` segments `np` is at the root, and from there on no name follows such a `..`. */
  predicate CleanFrom(segs: Segments, b: Buffer, k: nat)
    requires k <= |segs|
  {
    BufferReduce(segs[..k], b) == ROOT && !NameAfterPop(segs[k..], ROOT)
  }

  lemma CleanFromNext(segs: Segments, b: Buffer, k: nat)
    requires segs != [] && k <= |segs[1..]| && CleanFrom(segs[1..], BufferPush(b, segs[0]), k)
    ensures CleanFrom(segs, b, k + 1)
  {
    assert segs[..k + 1][1..] == segs[1..][..k] && segs[1..][k..] == segs[k + 1..];
  }

  /** Stacks that end up equal have been so since the root, with no such name since then. */
  lemma {:induction false} EqualSince(segs: Segments, b: Buffer, parts: Segments)
    requires Ahead(b, parts) && BufferReduce(segs, b).segs == Reduce(segs, parts)
    ensures (b.segs == parts && !NameAfterPop(segs, b)) || exists k :: 0 <= k <= |segs| && CleanFrom(segs, b, k)
    decreases |segs|
  {
    if segs != [] {
      var b', parts', rest := BufferPush(b, segs[0]), Push(parts, segs[0]), segs[1..];
      PushAhead(b, parts, segs[0]);
      EqualSince(rest, b', parts');
      if k :| 0 <= k <= |rest| && CleanFrom(rest, b', k) {
        CleanFromNext(segs, b, k);
      } else if b.segs != parts {
        assert rest[..0] == [] && rest[0..] == rest;
        assert CleanFrom(rest, b', 0);
      }
    }
  }

  lemma JoinTells(b: Buffer, parts: Segments)
    requires BufferOk(b) && Ahead(b, parts) && forall i :: 0 <= i < |parts| ==> '/' !in parts[i]
    ensures Join(b.segs) == Join(parts) <==> b.segs == parts
  {
    if b.segs != parts && Join(b.segs) == Join(parts) {
      SplitJoin(b.segs);
      if parts != [] {
        SplitJoin(parts);
      }
    }
  }

  /**
   The two normalisers agree on an absolute path exactly when no name follows such a `..` after the last
   segment at which `np` is back at the root.
   */
  lemma AgreeExactly(cwd: string, p: string)
    requires p != "" && p[0] == '/'
    ensures Np(cwd, p) == Norm(p) <==> exists k :: 0 <= k <= |Split(p)| && CleanFrom(Split(p), ROOT, k)
  {
    var segs := Split(p);
    NpIsReduce(cwd, p);
    NormIsReduce(p);
    hide Np, Norm, Split, Join;
    var b, parts := BufferReduce(segs, ROOT), Reduce(segs, []);
    ReduceAhead(segs, ROOT, []);
    ReduceIsClean(segs, []);
    SegmentsOk(p);
    JoinTells(b, parts);
    RootedEqual(Join(b.segs), Join(parts));
    hide BufferReduce, Reduce;
    if b.segs == parts {
      EqualSince(segs, ROOT, []);
      if !NameAfterPop(segs, ROOT) {
        AtStart(segs);
      }
    }
    if k :| 0 <= k <= |segs| && CleanFrom(segs, ROOT, k) {
      CleanAgrees(segs, k);
    }
  }

  lemma RootedEqual(s: string, t: string)
    ensures "/" + s == "/" + t <==> s == t
  {
    assert ("/" + s)[1..] == s && ("/" + t)[1..] == t;
  }

  lemma SegmentsOk(p: string)
    requires p != "" && p[0] == '/'
    ensures BufferOk(BufferReduce(Split(p), ROOT))
  {
    ScanIsReduce(p, ROOT);
  }

  lemma AtStart(segs: Segments)
    requires !NameAfterPop(segs, ROOT)
    ensures CleanFrom(segs, ROOT, 0)
  {
    assert segs[..0] == [] && segs[0..] == segs;
  }

  lemma CleanAgrees(segs: Segments, k: nat)
    requires k <= |segs| && CleanFrom(segs, ROOT, k)
    ensures BufferReduce(segs, ROOT).segs == Reduce(segs, [])
  {
    ReduceFrom(segs, ROOT, [], k);
    ReduceAhead(segs[..k], ROOT, []);
    NoNameAgrees(segs[k..], ROOT);
  }

  lemma AtLeastTwo(segs: Segments, b: Buffer, k: nat, r: Segments)
    requires 0 < k <= |segs| && segs[0] == "" && b.segs == []
    requires Reduce(segs[..k], b.segs) == r && r != []
    ensures k >= 2
  {
  }

  lemma BufferExample()
    ensures BufferReduce(["", "a", "b", "..", "c"], ROOT) == Buffer(["a", "", "c"], false)
  {
  }

  lemma ReduceExample()
    ensures Reduce(["", "a", "b", "..", "c"], []) == ["a", "c"]
  {
  }

  /** The path `/a/b/../c` comes out of `np` as `/a//c`, out of `_norm` as `/a/c`. */
  lemma DoubleSlash(cwd: string)
    ensures Np(cwd, "/a/b/../c") == "/a//c" && Norm("/a/b/../c") == "/a/c"
  {
    hide Np, Norm, Split, Reduce, BufferReduce;
    var p := "/a/b/../c";
    SplitExample();
    NpIsReduce(cwd, p);
    NormIsReduce(p);
    BufferExample();
    ReduceExample();
    assert ["a", "", "c"][1..] == ["", "c"] && ["", "c"][1..] == ["c"] && ["a", "c"][1..] == ["c"];
    assert Join(["a", "", "c"]) == "a" + "/" + ("" + "/" + "c");
  }

  lemma SplitExample()
    ensures Split("/a/b/../c") == ["", "a", "b", "..", "c"]
  {
    var parts := ["", "a", "b", "..", "c"];
    assert parts[1..] == ["a", "b", "..", "c"] && parts[1..][1..] == ["b", "..", "c"];
    assert ["b", "..", "c"][1..] == ["..", "c"] && ["..", "c"][1..] == ["c"];
    assert Join(["..", "c"]) == "../c";
    assert Join(["b", "..", "c"]) == "b/../c";
    assert Join(["a", "b", "..", "c"]) == "a/b/../c";
    assert Join(parts) == "/a/b/../c";
    SplitJoin(parts);
  }
}
