/** The buffer operations of src/kernel/editor.c in place, over `memmove` of src/lib/string.c. */
module Editor {
  import opened EditorText

  /** `n` characters of `s` at `src` put at `dst`, as if they were taken out first. */
  function Moved(s: string, dst: nat, src: nat, n: nat): (r: string)
    requires dst + n <= |s| && src + n <= |s|
    ensures |r| == |s|
  {
    s[..dst] + s[src..src + n] + s[dst + n..]
  }

  /** `memmove`: forwards or backwards, so that no character is overwritten before it is read. */
  method Memmove(a: array<char>, dst: nat, src: nat, n: nat)
    requires dst + n <= a.Length && src + n <= a.Length
    modifies a
    ensures a[..] == Moved(old(a[..]), dst, src, n)
  {
    if dst < src {
      MoveForwards(a, dst, src, n);
    } else {
      MoveBackwards(a, dst, src, n);
    }
  }

  method MoveForwards(a: array<char>, dst: nat, src: nat, n: nat)
    requires dst + n <= a.Length && src + n <= a.Length && dst < src
    modifies a
    ensures a[..] == Moved(old(a[..]), dst, src, n)
  {
    ghost var s := a[..];
    var i := 0;
    while i < n
      invariant 0 <= i <= n && |s| == a.Length
      invariant forall k :: dst <= k < dst + i ==> a[k] == s[src + (k - dst)]
      invariant forall k :: 0 <= k < a.Length && !(dst <= k < dst + i) ==> a[k] == s[k]
    {
      a[dst + i] := a[src + i];
      i := i + 1;
    }
    MovedIs(s, a[..], dst, src, n);
  }

  method MoveBackwards(a: array<char>, dst: nat, src: nat, n: nat)
    requires dst + n <= a.Length && src + n <= a.Length && src <= dst
    modifies a
    ensures a[..] == Moved(old(a[..]), dst, src, n)
  {
    ghost var s := a[..];
    var i := n;
    while i > 0
      invariant 0 <= i <= n && |s| == a.Length
      invariant forall k :: dst + i <= k < dst + n ==> a[k] == s[src + (k - dst)]
      invariant forall k :: 0 <= k < a.Length && !(dst + i <= k < dst + n) ==> a[k] == s[k]
    {
      i := i - 1;
      a[dst + i] := a[src + i];
    }
    MovedIs(s, a[..], dst, src, n);
  }

  lemma MovedIs(s: string, t: string, dst: nat, src: nat, n: nat)
    requires |t| == |s| && dst + n <= |s| && src + n <= |s|
    requires forall k :: dst <= k < dst + n ==> t[k] == s[src + (k - dst)]
    requires forall k :: 0 <= k < |s| && !(dst <= k < dst + n) ==> t[k] == s[k]
    ensures t == Moved(s, dst, src, n)
  {
  }

  class Buffer {
    const buf: array<char>
    var len: nat
    var cursor: nat
    var dirty: bool

    ghost predicate Valid()
      reads this, buf
    {
      buf.Length == ED_BUF_MAX && cursor <= len < ED_BUF_MAX
    }

    ghost function State(): Text
      requires Valid()
      reads this, buf
    {
      Text(buf[..len], cursor)
    }

    /** `editor_open` with the contents of the file, cut to what the buffer holds. */
    constructor (file: string)
      ensures Valid() && fresh(buf) && !dirty
      ensures State() == Text(if |file| < ED_BUF_MAX - 1 then file else file[..ED_BUF_MAX - 1], 0)
    {
      var n := if |file| < ED_BUF_MAX - 1 then |file| else ED_BUF_MAX - 1;
      buf := new char[ED_BUF_MAX](i requires 0 <= i < ED_BUF_MAX => if i < n && i < |file| then file[i] else '\0');
      len, cursor, dirty := n, 0, false;
      new;
      assert buf[..len] == file[..n];
    }

    // -------------------------------------------------------------- reading loops

    /** `ls`. */
    method LineStartAt(at: nat) returns (pos: nat)
      requires Valid() && at <= len
      ensures pos == LineStart(State().chars, at)
    {
      pos := at;
      while pos > 0 && buf[pos - 1] != '\n'
        invariant pos <= at && LineStart(State().chars, pos) == LineStart(State().chars, at)
      {
        pos := pos - 1;
      }
    }

    /** `le`. */
    method LineEndAt(at: nat) returns (pos: nat)
      requires Valid() && at <= len
      ensures pos == LineEnd(State().chars, at)
    {
      pos := at;
      while pos < len && buf[pos] != '\n'
        invariant at <= pos <= len && LineEnd(State().chars, pos) == LineEnd(State().chars, at)
      {
        pos := pos + 1;
      }
    }

    /** `lof`: the row of a position. */
    method LineOfAt(pos: nat) returns (n: nat)
      requires Valid() && pos <= len
      ensures n == LineOf(State().chars, pos) == |Lines(State().chars[..pos])| - 1
    {
      n := 0;
      var i := 0;
      while i < pos
        invariant i <= pos && n == LineOf(State().chars, i)
      {
        if buf[i] == '\n' { n := n + 1; }
        i := i + 1;
      }
      LineOfIsRow(State().chars, pos);
    }

    // -------------------------------------------------------------- edits

    /** `ins`. */
    method Ins(c: char)
      requires Valid()
      modifies this, buf
      ensures Valid() && State() == Press(old(State()), Insert(c))
    {
      if len >= ED_BUF_MAX - 1 { return; }
      ghost var s := buf[..];
      Memmove(buf, cursor + 1, cursor, len - cursor);
      buf[cursor] := c;
      assert buf[..len + 1] == s[..cursor] + [c] + s[cursor..len];
      assert s[..len][..cursor] == s[..cursor] && s[..len][cursor..] == s[cursor..len];
      cursor, len, dirty := cursor + 1, len + 1, true;
    }

    /** `delb`. */
    method Delb()
      requires Valid()
      modifies this, buf
      ensures Valid() && State() == Press(old(State()), Backspace)
    {
      if cursor == 0 { return; }
      ghost var s := buf[..];
      Memmove(buf, cursor - 1, cursor, len - cursor);
      assert buf[..len - 1] == s[..cursor - 1] + s[cursor..len];
      assert s[..len][..cursor][..cursor - 1] == s[..cursor - 1] && s[..len][cursor..] == s[cursor..len];
      len, cursor, dirty := len - 1, cursor - 1, true;
    }

    /** `delf`. */
    method Delf()
      requires Valid()
      modifies this, buf
      ensures Valid() && State() == Press(old(State()), Delete)
    {
      if cursor >= len { return; }
      ghost var s := buf[..];
      Memmove(buf, cursor, cursor + 1, len - cursor - 1);
      assert buf[..len - 1] == s[..cursor] + s[cursor + 1..len];
      assert s[..len][..cursor] == s[..cursor] && s[..len][cursor..][1..] == s[cursor + 1..len];
      len, dirty := len - 1, true;
    }

    // -------------------------------------------------------------- arrows

    method MoveUp()
      requires Valid()
      modifies this`cursor
      ensures Valid() && State() == Press(old(State()), Up)
    {
      var s := LineStartAt(cursor);
      if s == 0 {
        cursor := 0;
        return;
      }
      var col := cursor - s;
      var pe := s - 1;
      var ps := LineStartAt(pe);
      var pl := pe - ps;
      cursor := ps + (if col < pl then col else pl);
    }

    method MoveDown()
      requires Valid()
      modifies this`cursor
      ensures Valid() && State() == Press(old(State()), Down)
    {
      var end := LineEndAt(cursor);
      if end >= len {
        cursor := len;
        return;
      }
      var s := LineStartAt(cursor);
      var col := cursor - s;
      var ns := end + 1;
      var ne := LineEndAt(ns);
      var nl := ne - ns;
      cursor := ns + (if col < nl then col else nl);
    }

    /** One key of the loop in `editor_open`, outside its command line. */
    method OnKey(code: nat)
      requires Valid() && code < 256
      modifies this, buf
      ensures Valid()
      ensures State() == match KeyOf(code) case None => old(State()) case Some(k) => Press(old(State()), k)
      ensures DocOk(View(old(State()))) && DocOk(View(State()))
      ensures View(State())
              == match KeyOf(code) case None => View(old(State())) case Some(k) => DocPress(View(old(State())), k)
    {
      ghost var t := State();
      Parts(t);
      if KeyOf(code).Some? {
        PressRefines(t, KeyOf(code).value);
      }
      hide View, DocPress, Press;
      if code == 58 {
      } else if code == 17 {
        MoveUp();
      } else if code == 20 {
        MoveDown();
      } else if code == 18 {
        MoveLeft();
      } else if code == 19 {
        MoveRight();
      } else if code == 8 {
        Delb();
      } else if code == 127 {
        Delf();
      } else if 32 <= code < 127 || code == 10 || code == 9 {
        Ins(code as char);
      }
      Parts(State());
    }

    method MoveLeft()
      requires Valid()
      modifies this`cursor
      ensures Valid() && State() == Press(old(State()), Left)
    {
      if cursor > 0 { cursor := cursor - 1; }
    }

    method MoveRight()
      requires Valid()
      modifies this`cursor
      ensures Valid() && State() == Press(old(State()), Right)
    {
      if cursor < len { cursor := cursor + 1; }
    }
  }

  /** Counting newlines gives the row of a position. */
  lemma {:induction false} LineOfIsRow(s: string, pos: nat)
    requires pos <= |s|
    ensures LineOf(s, pos) == |Lines(s[..pos])| - 1
  {
    if pos == 0 {
      assert s[..0] == "";
    } else {
      LineOfIsRow(s, pos - 1);
      assert s[..pos] == s[..pos - 1] + [s[pos - 1]];
      LinesSnoc(s[..pos - 1], s[pos - 1]);
    }
  }
}
