/** What `_norm` and `np` make of a path with one more segment, and of a path relative to the current directory. */
module PathsLaws {
  import opened Paths
  import opened PathsAgree

  lemma {:induction false} SplitConcat(a: string, b: string)
    ensures Split(a + "/" + b) == Split(a) + Split(b)
  {
    if a == "" {
      assert (a + "/" + b)[1..] == b;
    } else {
      SplitConcat(a[1..], b);
      assert (a + "/" + b)[1..] == a[1..] + "/" + b && (a + "/" + b)[0] == a[0];
      ConsConcat(a[0], Split(a[1..]), Split(b));
    }
  }

  lemma ConsConcat(c: char, r: Segments, s: Segments)
    requires r != []
    ensures [""] + (r + s) == [""] + r + s
    ensures [[c] + (r + s)[0]] + (r + s)[1..] == [[c] + r[0]] + r[1..] + s
  {
    assert (r + s)[1..] == r[1..] + s;
  }

  lemma {:induction false} ReduceSnoc(segs: Segments, parts: Segments, seg: string)
    ensures Reduce(segs + [seg], parts) == Push(Reduce(segs, parts), seg)
    decreases |segs|
  {
    if segs == [] {
      assert ([] + [seg])[1..] == [];
      assert Reduce([seg], parts) == Reduce([], Push(parts, seg));
    } else {
      assert (segs + [seg])[1..] == segs[1..] + [seg];
      ReduceSnoc(segs[1..], Push(parts, segs[0]), seg);
    }
  }

  /** The stack that `_norm` ends with. */
  function Stack(p: string): Segments {
    Reduce(Split(if p != "" && p[0] == '/' then p else "/" + p), [])
  }

  lemma StackOf(p: string)
    ensures Norm(p) == "/" + Join(Stack(p)) && Clean(Stack(p))
  {
    ReduceIsClean(Split(if p != "" && p[0] == '/' then p else "/" + p), []);
  }

  lemma StackSnoc(p: string, seg: string)
    requires '/' !in seg
    ensures Stack(p + "/" + seg) == Push(Stack(p), seg)
  {
    var q := if p != "" && p[0] == '/' then p else "/" + p;
    if p == "" {
      EmptySnoc(seg);
      assert p + "/" + seg == "/" + seg;
    } else {
      hide Split, Reduce;
      SplitConcat(q, seg);
      SplitName(seg);
      ReduceSnoc(Split(q), [], seg);
      assert p[0] != '/' ==> "/" + (p + "/" + seg) == q + "/" + seg;
    }
  }

  lemma EmptySnoc(seg: string)
    requires '/' !in seg
    ensures Stack("/" + seg) == Push([], seg) && Stack("") == []
  {
    SplitConcat("", seg);
    SplitName(seg);
    assert "" + "/" + seg == "/" + seg && Split("") == [""] && Split("/") == ["", ""];
    assert ["", ""][1..] == [""] && [""][1..] == [];
    ReduceSnoc([""], [], seg);
  }

  /** What is already normal is a stack joined again. */
  lemma StackOfNorm(p: string)
    ensures Stack(Norm(p)) == Stack(p)
  {
    StackOf(p);
    SplitRooted(Stack(p));
  }

  lemma JoinSnoc(parts: Segments, seg: string)
    ensures Join(parts + [seg]) == if parts == [] then seg else Join(parts) + "/" + seg
  {
    JoinLast(parts + [seg]);
    assert (parts + [seg])[..|parts|] == parts;
  }

  lemma RootIff(p: string)
    ensures Norm(p) == "/" <==> Stack(p) == []
  {
    StackOf(p);
    var parts := Stack(p);
    if parts != [] {
      assert IsName(parts[0]);
      assert |Join(parts)| >= |parts[0]| > 0;
    }
  }

  lemma EmptyIsRoot()
    ensures Norm("") == "/"
  {
    StackOf("");
    assert ["", ""][1..] == [""] && [""][1..] == [];
    assert Split("/") == ["", ""];
  }

  /** `_norm` goes on from the path as it left it. */
  lemma NormGoesOn(p: string, seg: string)
    requires '/' !in seg
    ensures Norm(p + "/" + seg) == Norm(Norm(p) + "/" + seg)
  {
    hide Norm, Stack;
    StackSnoc(p, seg);
    StackSnoc(Norm(p), seg);
    StackOfNorm(p);
    StackOf(p + "/" + seg);
    StackOf(Norm(p) + "/" + seg);
  }

  /**
   One more segment: an empty one or a dot changes nothing, a name is put behind the path, two dots take a name
   away again, and stay at the root.
   */
  lemma NormStep(p: string, seg: string)
    requires '/' !in seg
    ensures seg == "" || seg == "." ==> Norm(p + "/" + seg) == Norm(p)
    ensures seg != "" && seg != "." && seg != ".." ==>
              && Norm(p + "/" + seg) == (if Norm(p) == "/" then "" else Norm(p)) + "/" + seg
              && Norm(p + "/" + seg + "/" + "..") == Norm(p)
    ensures Norm(p) == "/" ==> Norm(p + "/" + "..") == "/"
    ensures Norm("") == "/"
  {
    hide Norm, Stack, Join;
    EmptyIsRoot();
    RootIff(p);
    StackOf(p);
    StackSnoc(p, seg);
    StackOf(p + "/" + seg);
    JoinSnoc(Stack(p), seg);
    StackSnoc(p + "/" + seg, "..");
    StackOf(p + "/" + seg + "/" + "..");
    StackSnoc(p, "..");
    StackOf(p + "/" + "..");
    if seg != "" && seg != "." && seg != ".." {
      assert (Stack(p) + [seg])[..|Stack(p)|] == Stack(p);
      assert Stack(p) != [] ==> "/" + (Join(Stack(p)) + "/" + seg) == "/" + Join(Stack(p)) + "/" + seg;
    }
  }

  // ---------------------------------------------------------------- relative paths

  lemma {:induction false} SkipEmpty(x: Segments, y: Segments, b: Buffer)
    ensures BufferReduce(x + [""] + y, b) == BufferReduce(x + y, b)
    decreases |x|
  {
    if x == [] {
      assert [] + [""] + y == [""] + y && ([""] + y)[1..] == y && [] + y == y;
    } else {
      SkipEmpty(x[1..], y, BufferPush(b, x[0]));
      assert (x + [""] + y)[1..] == x[1..] + [""] + y && (x + y)[1..] == x[1..] + y;
    }
  }

  /** A relative path means the path behind the current directory and a slash. */
  lemma RelativeIs(cwd: string, p: string)
    requires cwd != "" && cwd[0] == '/' && (p == "" || p[0] != '/')
    ensures Np(cwd, p) == Np(cwd, cwd + "/" + p)
  {
    var q := cwd + "/" + p;
    if cwd[|cwd| - 1] == '/' {
      var d := cwd[..|cwd| - 1];
      assert cwd == d + "/" + "" && cwd + p == d + "/" + p;
      SplitConcat(d, "");
      SplitConcat(d, p);
      SplitConcat(cwd, p);
      SplitName("");
      SkipEmpty(Split(d), Split(p), ROOT);
      NpIsReduce(cwd, q);
      NpIsReduce(cwd, cwd + p);
      hide Np, Split, BufferReduce;
      assert Np(cwd, p) == Np(cwd, cwd + p) by { AbsoluteSame(cwd, p, cwd + p); }
    } else {
      AbsoluteSame(cwd, p, q);
    }
  }

  lemma AbsoluteSame(cwd: string, p: string, q: string)
    requires Absolute(cwd, p) == Absolute(cwd, q)
    ensures Np(cwd, p) == Np(cwd, q)
  {
  }
}
