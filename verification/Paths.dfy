/**
 The two path normalisers: `np` of src/drivers/fs/xcfs.c, which edits a character buffer, and
 `_norm` of extra/xcfs_inject.py, which keeps a stack of segments.
 */
module Paths {

  type Segments = seq<string>

  predicate IsName(s: string) {
    s != "" && '/' !in s
  }

  /** `'/'.join(parts)`. */
  function Join(parts: Segments): string {
    if parts == [] then "" else if |parts| == 1 then parts[0] else parts[0] + "/" + Join(parts[1..])
  }

  /** `p.split('/')`. */
  function Split(p: string): (r: Segments)
    ensures |r| > 0
    ensures forall i :: 0 <= i < |r| ==> '/' !in r[i]
  {
    if p == "" then [""]
    else
      var rest := Split(p[1..]);
      if p[0] == '/' then [""] + rest else [[p[0]] + rest[0]] + rest[1..]
  }

  // ---------------------------------------------------------------- _norm

  /** The loop of `_norm` over the segments, on the stack `parts`. */
  function Reduce(segs: Segments, parts: Segments): Segments
    decreases |segs|
  {
    if segs == [] then parts else Reduce(segs[1..], Push(parts, segs[0]))
  }

  /** What one segment does to the stack. */
  function Push(parts: Segments, seg: string): Segments {
    if seg == "" || seg == "." then parts
    else if seg == ".." then Pop(parts)
    else parts + [seg]
  }

  function Pop(parts: Segments): Segments {
    if parts == [] then [] else parts[..|parts| - 1]
  }

  function Norm(p: string): string {
    var q := if p != "" && p[0] == '/' then p else "/" + p;
    "/" + Join(Reduce(Split(q), []))
  }

  /** A stack as `_norm` leaves it: no empty, `.` or `..` segment, no slash inside one. */
  predicate Clean(parts: Segments) {
    forall i :: 0 <= i < |parts| ==> IsName(parts[i]) && parts[i] != "." && parts[i] != ".."
  }

  lemma {:induction false} ReduceIsClean(segs: Segments, parts: Segments)
    requires Clean(parts) && forall i :: 0 <= i < |segs| ==> '/' !in segs[i]
    ensures Clean(Reduce(segs, parts))
    decreases |segs|
  {
    if segs != [] {
      ReduceIsClean(segs[1..], Push(parts, segs[0]));
    }
  }

  lemma {:induction false} ReduceClean(segs: Segments, parts: Segments)
    requires Clean(segs)
    ensures Reduce(segs, parts) == parts + segs
    decreases |segs|
  {
    if segs == [] {
      assert parts + segs == parts;
    } else {
      ReduceClean(segs[1..], parts + [segs[0]]);
      assert parts + [segs[0]] + segs[1..] == parts + segs;
    }
  }

  lemma {:induction false} SplitName(s: string)
    requires '/' !in s
    ensures Split(s) == [s]
  {
    if s != "" {
      SplitName(s[1..]);
      assert [s[0]] + s[1..] == s;
    }
  }

  lemma {:induction false} SplitAtSlash(s: string, t: string)
    requires '/' !in s
    ensures Split(s + "/" + t) == [s] + Split(t)
  {
    if s == "" {
      assert (s + "/" + t)[1..] == t;
    } else {
      SplitAtSlash(s[1..], t);
      assert (s + "/" + t)[1..] == s[1..] + "/" + t;
      assert [s[0]] + s[1..] == s;
    }
  }

  lemma {:induction false} SplitJoin(parts: Segments)
    requires parts != [] && forall i :: 0 <= i < |parts| ==> '/' !in parts[i]
    ensures Split(Join(parts)) == parts
  {
    if |parts| == 1 {
      SplitName(parts[0]);
    } else {
      SplitJoin(parts[1..]);
      SplitAtSlash(parts[0], Join(parts[1..]));
    }
  }

  lemma SplitRooted(parts: Segments)
    requires Clean(parts)
    ensures Reduce(Split("/" + Join(parts)), []) == parts
  {
    assert ("/" + Join(parts))[1..] == Join(parts);
    assert Split("/" + Join(parts)) == [""] + Split(Join(parts));
    if parts == [] {
      assert Split("/") == ["", ""];
      assert ["", ""][1..] == [""] && [""][1..] == [];
      assert Reduce([""], []) == [];
    } else {
      SplitJoin(parts);
      assert ([""] + parts)[1..] == parts;
      ReduceClean(parts, []);
      assert [] + parts == parts;
    }
  }

  /** Every path `_norm` returns is rooted and made of proper segments only. */
  lemma NormIsClean(p: string)
    ensures exists parts :: Clean(parts) && Norm(p) == "/" + Join(parts)
  {
    var q := if p != "" && p[0] == '/' then p else "/" + p;
    ReduceIsClean(Split(q), []);
    assert Clean(Reduce(Split(q), []));
  }

  /** `_norm` is idempotent on every path. */
  lemma NormIdempotent(p: string)
    ensures Norm(Norm(p)) == Norm(p)
  {
    var q := if p != "" && p[0] == '/' then p else "/" + p;
    ReduceIsClean(Split(q), []);
    SplitRooted(Reduce(Split(q), []));
  }

  /** `_norm` as the loop it is. */
  method NormLoop(p: string) returns (r: string)
    ensures r == Norm(p)
  {
    var q := if p != "" && p[0] == '/' then p else "/" + p;
    var segs := Split(q);
    var parts: Segments := [];
    var i := 0;
    assert segs[0..] == segs;
    while i < |segs|
      invariant i <= |segs| && Reduce(segs[i..], parts) == Reduce(segs, [])
    {
      var seg := segs[i];
      assert segs[i..][1..] == segs[i + 1..];
      if seg == "" || seg == "." {
      } else if seg == ".." {
        if parts != [] { parts := parts[..|parts| - 1]; }
      } else {
        parts := parts + [seg];
      }
      i := i + 1;
    }
    r := "/" + Join(parts);
  }

  // ---------------------------------------------------------------- np

  /** Drop the last segment's characters, keeping the slash in front of them. */
  function DropName(buf: string): (r: string)
    requires buf != ""
    ensures r != ""
  {
    if |buf| > 1 && buf[|buf| - 1] != '/' then DropName(buf[..|buf| - 1]) else buf
  }

  /** The `..` branch of `np`. */
  function PopBuffer(buf: string): (r: string)
    requires buf != ""
    ensures r != ""
  {
    if |buf| > 1 then DropName(buf[..|buf| - 1]) else buf
  }

  /** The length of the name at the front of `t`. */
  function NameLength(t: string): (n: nat)
    ensures n <= |t| && '/' !in t[..n]
    ensures n < |t| ==> t[n] == '/'
  {
    if t == "" || t[0] == '/' then 0
    else
      var n := NameLength(t[1..]);
      assert t[..n + 1] == [t[0]] + t[1..][..n];
      n + 1
  }

  predicate DotAt(t: string) {
    t != "" && t[0] == '.' && (|t| == 1 || t[1] == '/')
  }

  predicate DotsAt(t: string) {
    |t| >= 2 && t[0] == '.' && t[1] == '.' && (|t| == 2 || t[2] == '/')
  }

  /** The main loop of `np`: what is left of the input, and the buffer so far. */
  function Scan(t: string, buf: string): string
    requires buf != ""
    decreases |t|
  {
    if t == "" then buf
    else if t[0] == '/' then Scan(t[1..], buf)
    else if DotAt(t) then Scan(t[if |t| > 1 then 2 else 1..], buf)
    else if DotsAt(t) then Scan(t[if |t| > 2 then 3 else 2..], PopBuffer(buf))
    else
      var n := NameLength(t);
      assert n > 0;
      Scan(t[n..], (if |buf| > 1 then buf + "/" else buf) + t[..n])
  }

  function StripSlash(buf: string): string {
    if |buf| > 1 && buf[|buf| - 1] == '/' then buf[..|buf| - 1] else buf
  }

  /** The path `np` works on: absolute as given, relative joined to the current directory. */
  function Absolute(cwd: string, p: string): string {
    if p != "" && p[0] == '/' then p
    else if cwd == "" || cwd[|cwd| - 1] != '/' then cwd + "/" + p
    else cwd + p
  }

  function Np(cwd: string, p: string): string {
    var t := Absolute(cwd, p);
    StripSlash(Scan(if t == "" then "" else t[1..], "/"))
  }

  /** `np`, editing its buffer in place; paths of 248 characters or more are not part of the model. */
  method NpInPlace(cwd: string, p: string) returns (o: string)
    requires |Absolute(cwd, p)| < 248
    ensures o == Np(cwd, p)
  {
    var tmp := Absolute(cwd, p);
    AbsoluteNotEmpty(cwd, p);
    var buf := new char[248];
    buf[0] := '/';
    var bi, ti := 1, 1;
    assert buf[..1] == "/";
    while ti < |tmp|
      invariant 1 <= bi <= ti <= |tmp|
      invariant bi > 1 ==> bi < ti || ti == |tmp| || tmp[ti] == '/'
      invariant Scan(tmp[ti..], buf[..bi]) == Scan(tmp[1..], "/")
      decreases |tmp| - ti
    {
      var t := tmp[ti..];
      if t[0] == '/' {
        ti := ti + 1;
        assert t[1..] == tmp[ti..];
      } else if DotAt(t) {
        ti := ti + if |t| > 1 then 2 else 1;
        assert t[if |t| > 1 then 2 else 1..] == tmp[ti..];
      } else if DotsAt(t) {
        ti := ti + if |t| > 2 then 3 else 2;
        assert t[if |t| > 2 then 3 else 2..] == tmp[ti..];
        bi := PopInPlace(buf, bi);
      } else {
        var n := NameLength(t);
        bi := AppendName(buf, bi, t[..n]);
        ti := ti + n;
        assert t[n..] == tmp[ti..];
      }
    }
    assert tmp[ti..] == "";
    o := if bi > 1 && buf[bi - 1] == '/' then buf[..bi - 1] else buf[..bi];
  }

  method AppendName(buf: array<char>, bi: nat, name: string) returns (bi': nat)
    requires 0 < bi && bi + 1 + |name| <= buf.Length
    modifies buf
    ensures bi' == (if bi > 1 then bi + 1 else bi) + |name|
    ensures buf[..bi'] == (if bi > 1 then old(buf[..bi]) + "/" else old(buf[..bi])) + name
  {
    bi' := bi;
    if bi > 1 {
      buf[bi] := '/';
      bi' := bi + 1;
      assert buf[..bi'] == old(buf[..bi]) + "/";
    }
    ghost var base := buf[..bi'];
    var i := 0;
    while i < |name|
      invariant i <= |name| && bi' == |base| + i
      invariant buf[..bi'] == base + name[..i]
    {
      buf[bi'] := name[i];
      bi' := bi' + 1;
      i := i + 1;
    }
    assert name[..i] == name;
  }

  method PopInPlace(buf: array<char>, bi: nat) returns (bi': nat)
    requires 0 < bi <= buf.Length
    ensures 0 < bi' <= bi && buf[..bi'] == PopBuffer(buf[..bi])
  {
    bi' := bi;
    if bi > 1 {
      bi' := bi - 1;
      assert buf[..bi'] == buf[..bi][..bi - 1];
      while bi' > 1 && buf[bi' - 1] != '/'
        invariant 0 < bi' < bi && DropName(buf[..bi']) == PopBuffer(buf[..bi])
      {
        assert buf[..bi'][..bi' - 1] == buf[..bi' - 1];
        bi' := bi' - 1;
      }
    }
  }

  lemma AbsoluteNotEmpty(cwd: string, p: string)
    ensures Absolute(cwd, p) != ""
  {
  }
}
