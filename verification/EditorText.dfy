/** The buffer of src/kernel/editor.c: a flat text with a cursor, and the lines, row and column it stands for. */
module EditorText {
  import opened Options

  const ED_BUF_MAX: nat := 65536

  datatype Text = Text(chars: string, cursor: nat)

  datatype Key = Insert(c: char) | Backspace | Delete | Up | Down | Left | Right

  predicate Ok(t: Text) {
    t.cursor <= |t.chars| < ED_BUF_MAX
  }

  /** What the editor does with a key code outside its command line; `:` opens that and edits nothing. */
  function KeyOf(code: nat): Option<Key>
    requires code < 256
  {
    if code == 17 then Some(Up)
    else if code == 20 then Some(Down)
    else if code == 18 then Some(Left)
    else if code == 19 then Some(Right)
    else if code == 8 then Some(Backspace)
    else if code == 127 then Some(Delete)
    else if code != 58 && (32 <= code < 127 || code == 10 || code == 9) then Some(Insert(code as char))
    else None
  }

  /** The codes of the keys: printable ASCII but the colon, newline and tab insert themselves. */
  lemma KeyCodes(code: nat)
    requires code < 256
    ensures (KeyOf(code) == Some(Up) <==> code == 0x11) && (KeyOf(code) == Some(Down) <==> code == 0x14)
    ensures (KeyOf(code) == Some(Left) <==> code == 0x12) && (KeyOf(code) == Some(Right) <==> code == 0x13)
    ensures (KeyOf(code) == Some(Backspace) <==> code == 0x08) && (KeyOf(code) == Some(Delete) <==> code == 0x7F)
    ensures forall c :: KeyOf(code) == Some(Insert(c))
                        <==> c as int == code && c != ':' && (' ' <= c <= '~' || c == '\n' || c == '\t')
  {
  }

  // ---------------------------------------------------------------- the flat text

  /** `ls`. */
  function LineStart(s: string, pos: nat): (r: nat)
    requires pos <= |s|
    ensures r <= pos
  {
    if pos > 0 && s[pos - 1] != '\n' then LineStart(s, pos - 1) else pos
  }

  /** `le`. */
  function LineEnd(s: string, pos: nat): (r: nat)
    requires pos <= |s|
    ensures pos <= r <= |s|
    decreases |s| - pos
  {
    if pos < |s| && s[pos] != '\n' then LineEnd(s, pos + 1) else pos
  }

  /** `lof`. */
  function LineOf(s: string, pos: nat): nat
    requires pos <= |s|
  {
    if pos == 0 then 0 else LineOf(s, pos - 1) + (if s[pos - 1] == '\n' then 1 else 0)
  }

  function Min(a: nat, b: nat): nat {
    if a < b then a else b
  }

  function PressUp(t: Text): Text
    requires Ok(t)
  {
    var s := LineStart(t.chars, t.cursor);
    if s == 0 then t.(cursor := 0)
    else
      var ps := LineStart(t.chars, s - 1);
      t.(cursor := ps + Min(t.cursor - s, s - 1 - ps))
  }

  function PressDown(t: Text): Text
    requires Ok(t)
  {
    var end := LineEnd(t.chars, t.cursor);
    if end >= |t.chars| then t.(cursor := |t.chars|)
    else
      var ne := LineEnd(t.chars, end + 1);
      t.(cursor := end + 1 + Min(t.cursor - LineStart(t.chars, t.cursor), ne - (end + 1)))
  }

  function Press(t: Text, k: Key): Text
    requires Ok(t)
  {
    var b, a := t.chars[..t.cursor], t.chars[t.cursor..];
    match k
    case Insert(c) => if |t.chars| >= ED_BUF_MAX - 1 then t else Text(b + [c] + a, t.cursor + 1)
    case Backspace => if t.cursor == 0 then t else Text(b[..t.cursor - 1] + a, t.cursor - 1)
    case Delete => if t.cursor >= |t.chars| then t else Text(b + a[1..], t.cursor)
    case Left => if t.cursor > 0 then t.(cursor := t.cursor - 1) else t
    case Right => if t.cursor < |t.chars| then t.(cursor := t.cursor + 1) else t
    case Up => PressUp(t)
    case Down => PressDown(t)
  }

  // ---------------------------------------------------------------- lines, row and column

  datatype Doc = Doc(lines: seq<string>, row: nat, col: nat)

  predicate DocOk(d: Doc) {
    d.row < |d.lines| && d.col <= |d.lines[d.row]|
  }

  /** The text cut at its newlines. */
  function Lines(s: string): (r: seq<string>)
    ensures |r| > 0
  {
    if s == "" then [""]
    else
      var rest := Lines(s[1..]);
      if s[0] == '\n' then [""] + rest else [[s[0]] + rest[0]] + rest[1..]
  }

  /** The lines with a newline between any two of them. */
  function Unlines(ls: seq<string>): string {
    if ls == [] then "" else if |ls| == 1 then ls[0] else ls[0] + "\n" + Unlines(ls[1..])
  }

  /** The lines hold no newline, and with newlines between them they are the text. */
  lemma {:induction false} LinesJoin(s: string)
    ensures Unlines(Lines(s)) == s
    ensures forall i :: 0 <= i < |Lines(s)| ==> '\n' !in Lines(s)[i]
  {
    if s != "" {
      LinesJoin(s[1..]);
      var rest := Lines(s[1..]);
      assert s == [s[0]] + s[1..];
      if s[0] == '\n' {
        assert ([""] + rest)[1..] == rest && "" + "\n" + s[1..] == s;
      } else {
        UnlinesCons(s[0], rest);
      }
    }
  }

  lemma UnlinesCons(c: char, ls: seq<string>)
    requires ls != []
    ensures Unlines([[c] + ls[0]] + ls[1..]) == [c] + Unlines(ls)
  {
    if |ls| > 1 {
      assert ([[c] + ls[0]] + ls[1..])[1..] == ls[1..];
      assert ([c] + ls[0]) + "\n" + Unlines(ls[1..]) == [c] + (ls[0] + "\n" + Unlines(ls[1..]));
    }
  }

  function Last(ls: seq<string>): string
    requires |ls| > 0
  {
    ls[|ls| - 1]
  }

  function Front(ls: seq<string>): seq<string>
    requires |ls| > 0
  {
    ls[..|ls| - 1]
  }

  /** The characters of a document, newlines included. */
  function Size(lines: seq<string>): nat {
    if lines == [] then 0 else if |lines| == 1 then |lines[0]| else |lines[0]| + 1 + Size(lines[1..])
  }

  /** Row and column count the newlines in front of the cursor and what follows the last of them. */
  function View(t: Text): Doc
    requires t.cursor <= |t.chars|
  {
    var b := Lines(t.chars[..t.cursor]);
    Doc(Lines(t.chars), |b| - 1, |Last(b)|)
  }

  /** What a key means on a document. */
  function DocPress(d: Doc, k: Key): Doc
    requires DocOk(d)
  {
    var line := d.lines[d.row];
    match k
    case Insert(c) =>
      if Size(d.lines) >= ED_BUF_MAX - 1 then d
      else if c == '\n' then
        Doc(d.lines[..d.row] + [line[..d.col], line[d.col..]] + d.lines[d.row + 1..], d.row + 1, 0)
      else Doc(d.lines[d.row := line[..d.col] + [c] + line[d.col..]], d.row, d.col + 1)
    case Backspace =>
      if d.col > 0 then Doc(d.lines[d.row := line[..d.col - 1] + line[d.col..]], d.row, d.col - 1)
      else if d.row > 0 then
        var above := d.lines[d.row - 1];
        Doc(d.lines[..d.row - 1] + [above + line] + d.lines[d.row + 1..], d.row - 1, |above|)
      else d
    case Delete =>
      if d.col < |line| then Doc(d.lines[d.row := line[..d.col] + line[d.col + 1..]], d.row, d.col)
      else if d.row + 1 < |d.lines| then
        Doc(d.lines[..d.row] + [line + d.lines[d.row + 1]] + d.lines[d.row + 2..], d.row, d.col)
      else d
    case Left =>
      if d.col > 0 then d.(col := d.col - 1)
      else if d.row > 0 then d.(row := d.row - 1, col := |d.lines[d.row - 1]|)
      else d
    case Right =>
      if d.col < |line| then d.(col := d.col + 1)
      else if d.row + 1 < |d.lines| then d.(row := d.row + 1, col := 0)
      else d
    case Up => if d.row == 0 then d.(col := 0) else d.(row := d.row - 1, col := Min(d.col, |d.lines[d.row - 1]|))
    case Down =>
      if d.row + 1 == |d.lines| then d.(col := |line|)
      else d.(row := d.row + 1, col := Min(d.col, |d.lines[d.row + 1]|))
  }

  // ---------------------------------------------------------------- cutting at the cursor

  /** The lines of two texts in a row. */
  lemma {:induction false} Glue(b: string, a: string)
    ensures Lines(b + a) == Front(Lines(b)) + [Last(Lines(b)) + Lines(a)[0]] + Lines(a)[1..]
  {
    var n := Lines(a);
    if b == "" {
      assert b + a == a && "" + n[0] == n[0];
      assert n == [] + [n[0]] + n[1..];
    } else {
      assert (b + a)[1..] == b[1..] + a;
      Glue(b[1..], a);
      GlueFirst(b[0], Lines(b[1..]), n);
    }
  }

  lemma GlueFirst(c: char, r: seq<string>, n: seq<string>)
    requires |r| > 0 && |n| > 0
    ensures var g := Front(r) + [Last(r) + n[0]] + n[1..];
            && (var l := [""] + r; [""] + g == Front(l) + [Last(l) + n[0]] + n[1..])
            && (var l := [[c] + r[0]] + r[1..]; [[c] + g[0]] + g[1..] == Front(l) + [Last(l) + n[0]] + n[1..])
  {
    var g := Front(r) + [Last(r) + n[0]] + n[1..];
    var k := [""] + r;
    assert Front(k) == [""] + Front(r) && Last(k) == Last(r);
    var l := [[c] + r[0]] + r[1..];
    if |r| == 1 {
      assert g[1..] == n[1..] && g[0] == r[0] + n[0] && Front(l) == [] && Last(l) == [c] + r[0];
      assert [c] + (r[0] + n[0]) == ([c] + r[0]) + n[0];
    } else {
      assert g[0] == r[0] && g[1..] == r[1..|r| - 1] + [Last(r) + n[0]] + n[1..];
      assert Front(l) == [[c] + r[0]] + r[1..|r| - 1] && Last(l) == Last(r);
    }
  }

  lemma {:induction false} SizeOfLines(s: string)
    ensures Size(Lines(s)) == |s|
  {
    if s != "" {
      SizeOfLines(s[1..]);
      var rest := Lines(s[1..]);
      if s[0] == '\n' {
        assert ([""] + rest)[1..] == rest;
      } else {
        assert ([[s[0]] + rest[0]] + rest[1..])[1..] == rest[1..];
      }
    }
  }

  /** The document with `above` over the cursor line, `l` and `m` left and right of the cursor, `below` under it. */
  function At(above: seq<string>, l: string, m: string, below: seq<string>): (d: Doc)
    ensures DocOk(d)
  {
    Doc(above + [l + m] + below, |above|, |l|)
  }

  lemma AtParts(above: seq<string>, l: string, m: string, below: seq<string>)
    ensures var d := At(above, l, m, below); var n := |above|;
            && d.lines[n] == l + m && d.lines[..n] == above && d.lines[n + 1..] == below
            && d.lines[n][..|l|] == l && d.lines[n][|l|..] == m
  {
  }

  /** What stands left and right of the cursor decides the view. */
  lemma ViewAt(b: string, a: string, above: seq<string>, l: string, m: string, below: seq<string>)
    requires Lines(b) == above + [l] && Lines(a) == [m] + below
    ensures View(Text(b + a, |b|)) == At(above, l, m, below)
  {
    Glue(b, a);
    assert (b + a)[..|b|] == b;
    assert Front(above + [l]) == above;
    hide Lines;
  }

  lemma LinesOfChar(c: char)
    ensures Lines([c]) == if c == '\n' then ["", ""] else [[c]]
  {
    assert [c][1..] == "" && Lines("") == [""];
    assert [c] + "" == [c] && [""][1..] == [];
  }

  /** The lines of a text with one more character behind it. */
  lemma LinesSnoc(b: string, c: char)
    ensures Lines(b + [c]) == if c == '\n' then Lines(b) + [""] else Front(Lines(b)) + [Last(Lines(b)) + [c]]
  {
    Glue(b, [c]);
    LinesOfChar(c);
    var r := Lines(b);
    if c == '\n' {
      assert Last(r) + "" == Last(r) && Front(r) + [Last(r)] == r && ["", ""][1..] == [""];
    } else {
      assert [[c]][1..] == [];
    }
  }

  /** The lines of a text with one more character in front. */
  lemma LinesCons(c: char, a: string)
    ensures Lines([c] + a) == if c == '\n' then [""] + Lines(a) else [[c] + Lines(a)[0]] + Lines(a)[1..]
  {
  }

  // ---------------------------------------------------------------- editing, on cut documents

  lemma InsertAt(above: seq<string>, l: string, m: string, below: seq<string>, c: char)
    requires Size(At(above, l, m, below).lines) < ED_BUF_MAX - 1
    ensures DocPress(At(above, l, m, below), Insert(c)) ==
            if c == '\n' then At(above + [l], "", m, below) else At(above, l + [c], m, below)
  {
    hide Size;
    var d := At(above, l, m, below);
    AtParts(above, l, m, below);
    if c == '\n' {
      assert "" + m == m;
      assert above + [l, m] + below == (above + [l]) + [m] + below;
    } else {
      assert (l + [c]) + m == l + [c] + m;
      assert d.lines[|above| := l + [c] + m] == above + [l + [c] + m] + below;
    }
  }

  lemma BackspaceInLine(above: seq<string>, l: string, x: char, m: string, below: seq<string>)
    ensures DocPress(At(above, l + [x], m, below), Backspace) == At(above, l, m, below)
    ensures DocPress(At(above, l + [x], m, below), Left) == At(above, l, [x] + m, below)
  {
    var d := At(above, l + [x], m, below);
    AtParts(above, l + [x], m, below);
    assert d.lines[|above|][..|l|] == l;
    assert d.lines[|above| := l + m] == above + [l + m] + below;
    assert l + [x] + m == l + ([x] + m);
  }

  lemma BackspaceAtStart(above: seq<string>, l: string, m: string, below: seq<string>)
    ensures DocPress(At(above + [l], "", m, below), Backspace) == At(above, l, m, below)
    ensures DocPress(At(above + [l], "", m, below), Left) == At(above, l, "", [m] + below)
  {
    var d := At(above + [l], "", m, below);
    AtParts(above + [l], "", m, below);
    assert d.lines[|above|] == l && d.lines[..|above|] == above && "" + m == m;
    assert above + [l + ""] + ([m] + below) == above + [l] + [m] + below by { assert l + "" == l; }
  }

  lemma DeleteInLine(above: seq<string>, l: string, x: char, m: string, below: seq<string>)
    ensures DocPress(At(above, l, [x] + m, below), Delete) == At(above, l, m, below)
    ensures DocPress(At(above, l, [x] + m, below), Right) == At(above, l + [x], m, below)
  {
    var d := At(above, l, [x] + m, below);
    AtParts(above, l, [x] + m, below);
    assert d.lines[|above|][|l| + 1..] == m;
    assert d.lines[|above| := l + m] == above + [l + m] + below;
    assert l + [x] + m == l + ([x] + m);
  }

  lemma DeleteAtEnd(above: seq<string>, l: string, m: string, below: seq<string>)
    ensures DocPress(At(above, l, "", [m] + below), Delete) == At(above, l, m, below)
    ensures DocPress(At(above, l, "", [m] + below), Right) == At(above + [l], "", m, below)
  {
    var d := At(above, l, "", [m] + below);
    AtParts(above, l, "", [m] + below);
    assert l + "" == l && "" + m == m && d.lines[|above| + 1..] == [m] + below;
    assert d.lines[|above| + 1] == m && d.lines[|above| + 2..] == below;
    assert above + [l] + ([m] + below) == (above + [l]) + [m] + below;
  }

  // ---------------------------------------------------------------- editing, on texts

  lemma SizeOfView(b: string, a: string)
    ensures Size(View(Text(b + a, |b|)).lines) == |b + a|
  {
    SizeOfLines(b + a);
  }

  lemma InsertRefines(b: string, a: string, c: char)
    requires |b + a| < ED_BUF_MAX - 1
    ensures DocOk(View(Text(b + a, |b|)))
    ensures View(Text(b + [c] + a, |b| + 1)) == DocPress(View(Text(b + a, |b|)), Insert(c))
  {
    hide Lines, View, At, DocPress, Size;
    var above, l, m, below := Front(Lines(b)), Last(Lines(b)), Lines(a)[0], Lines(a)[1..];
    ViewAt(b, a, above, l, m, below);
    SizeOfView(b, a);
    LinesSnoc(b, c);
    InsertAt(above, l, m, below, c);
    if c == '\n' {
      ViewAt(b + [c], a, above + [l], "", m, below);
    } else {
      ViewAt(b + [c], a, above, l + [c], m, below);
    }
  }

  lemma BehindChar(b: string, x: char, a: string, above: seq<string>, l: string, m: string, below: seq<string>)
    requires Lines(b + [x]) == above + [l] && Lines(a) == [m] + below
    ensures View(Text(b + [x] + a, |b| + 1)) == At(above, l, m, below)
  {
    hide Lines, View, At;
    ViewAt(b + [x], a, above, l, m, below);
  }

  lemma BeforeChar(b: string, x: char, a: string, above: seq<string>, l: string, m: string, below: seq<string>)
    requires Lines(b) == above + [l] && Lines([x] + a) == [m] + below
    ensures View(Text(b + [x] + a, |b|)) == At(above, l, m, below)
  {
    hide Lines, View, At;
    assert b + [x] + a == b + ([x] + a);
    ViewAt(b, [x] + a, above, l, m, below);
  }

  /** Backspace and the left arrow behind character `x`, Delete and the right arrow in front of it. */
  lemma AroundRefines(b: string, x: char, a: string)
    ensures var t := Text(b + [x] + a, |b| + 1);
            && DocOk(View(t)) && View(Text(b + a, |b|)) == DocPress(View(t), Backspace)
            && View(Text(b + [x] + a, |b|)) == DocPress(View(t), Left)
    ensures var t := Text(b + [x] + a, |b|);
            && DocOk(View(t)) && View(Text(b + a, |b|)) == DocPress(View(t), Delete)
            && View(Text(b + [x] + a, |b| + 1)) == DocPress(View(t), Right)
  {
    var above, l, m, below := Front(Lines(b)), Last(Lines(b)), Lines(a)[0], Lines(a)[1..];
    assert Lines(a) == [m] + below && Lines(b) == above + [l];
    hide Lines, View, At, DocPress;
    ViewAt(b, a, above, l, m, below);
    LinesSnoc(b, x);
    LinesCons(x, a);
    hide Front, Last;
    if x == '\n' {
      BehindChar(b, x, a, above + [l], "", m, below);
      BeforeChar(b, x, a, above, l, "", [m] + below);
      BackspaceAtStart(above, l, m, below);
      DeleteAtEnd(above, l, m, below);
    } else {
      BehindChar(b, x, a, above, l + [x], m, below);
      BeforeChar(b, x, a, above, l, [x] + m, below);
      BackspaceInLine(above, l, x, m, below);
      DeleteInLine(above, l, x, m, below);
    }
  }

  // ---------------------------------------------------------------- moving by lines

  /** The line start, and the lines of every prefix that ends in the last line. */
  lemma {:induction false} StartCuts(s: string, pos: nat, k: nat)
    requires pos <= |s| && LineStart(s, pos) <= k <= pos
    ensures var b := Lines(s[..pos]); var r := LineStart(s, pos);
            r + |Last(b)| == pos && Lines(s[..k]) == Front(b) + [Last(b)[..k - r]]
    decreases pos
  {
    if pos > 0 && s[pos - 1] != '\n' {
      StartCuts(s, pos - 1, if k < pos then k else pos - 1);
      hide Lines;
      CutsInLine(s, pos, k, LineStart(s, pos));
    } else {
      hide Lines;
      EmptyLine(s, pos);
    }
  }

  lemma CutsInLine(s: string, pos: nat, k: nat, r: nat)
    requires 0 < pos <= |s| && s[pos - 1] != '\n' && r <= pos - 1 && r <= k <= pos
    requires var b := Lines(s[..pos - 1]); var k' := if k < pos then k else pos - 1;
             r + |Last(b)| == pos - 1 && Lines(s[..k']) == Front(b) + [Last(b)[..k' - r]]
    ensures var b := Lines(s[..pos]); r + |Last(b)| == pos && Lines(s[..k]) == Front(b) + [Last(b)[..k - r]]
  {
    var b, b', x := Lines(s[..pos]), Lines(s[..pos - 1]), s[pos - 1];
    assert s[..pos] == s[..pos - 1] + [x];
    LinesSnoc(s[..pos - 1], x);
    hide Lines;
    assert Last(b) == Last(b') + [x] && Front(b) == Front(b');
    if k < pos {
      CutStays(Last(b'), x, k - r);
    } else {
      assert Last(b)[..k - r] == Last(b) && b == Front(b) + [Last(b)];
    }
  }

  /** At a line start the last line is empty. */
  lemma EmptyLine(s: string, pos: nat)
    requires pos <= |s| && (pos == 0 || s[pos - 1] == '\n')
    ensures var b := Lines(s[..pos]); Last(b) == "" && b == Front(b) + [""]
  {
    if pos > 0 {
      assert s[..pos] == s[..pos - 1] + [s[pos - 1]];
      LinesSnoc(s[..pos - 1], s[pos - 1]);
    }
  }

  lemma CutStays(l: string, x: char, k: nat)
    requires k <= |l|
    ensures (l + [x])[..k] == l[..k]
  {
  }

  lemma {:induction false} StartIsBehindNewline(s: string, pos: nat)
    requires pos <= |s|
    ensures var r := LineStart(s, pos); r > 0 ==> s[r - 1] == '\n'
  {
    if pos > 0 && s[pos - 1] != '\n' {
      StartIsBehindNewline(s, pos - 1);
    }
  }

  /** In front of a line start that is not the beginning stand the lines above. */
  lemma AboveStart(s: string, pos: nat)
    requires pos <= |s|
    ensures var b := Lines(s[..pos]); var r := LineStart(s, pos);
            (r == 0 <==> |b| == 1) && (r > 0 ==> Lines(s[..r - 1]) == Front(b))
  {
    var r := LineStart(s, pos);
    StartCuts(s, pos, r);
    StartIsBehindNewline(s, pos);
    if r > 0 {
      assert s[..r] == s[..r - 1] + [s[r - 1]];
      LinesSnoc(s[..r - 1], s[r - 1]);
      var f := Front(Lines(s[..pos]));
      assert f + [""] == Lines(s[..r - 1]) + [""];
      assert f == (f + [""])[..|f|];
    }
  }

  /** The line end, and what follows it. */
  lemma {:induction false} EndCuts(s: string, pos: nat)
    requires pos <= |s|
    ensures var a := Lines(s[pos..]); var e := LineEnd(s, pos);
            e - pos == |a[0]| && s[pos..e] == a[0] && (e == |s| <==> |a| == 1)
            && (e < |s| ==> s[e] == '\n' && Lines(s[e + 1..]) == a[1..])
    ensures '\n' !in s[pos..LineEnd(s, pos)]
    decreases |s| - pos
  {
    if pos < |s| {
      assert s[pos..] == [s[pos]] + s[pos + 1..];
      LinesCons(s[pos], s[pos + 1..]);
      if s[pos] != '\n' {
        EndCuts(s, pos + 1);
        var e := LineEnd(s, pos);
        assert s[pos..e] == [s[pos]] + s[pos + 1..e];
      } else {
        assert s[pos + 1..] == s[LineEnd(s, pos) + 1..];
      }
    }
  }

  lemma {:induction false} LinesOfPlain(p: string)
    requires '\n' !in p
    ensures Lines(p) == [p]
  {
    if p != "" {
      LinesOfPlain(p[1..]);
      assert [p[0]] + p[1..] == p && [p[1..]][1..] == [];
    }
  }

  lemma AfterPlain(b: string, p: string)
    requires '\n' !in p
    ensures Lines(b + p) == Front(Lines(b)) + [Last(Lines(b)) + p]
  {
    Glue(b, p);
    LinesOfPlain(p);
    assert [p][1..] == [];
  }

  /** The view keeps its lines and takes row and column from the text in front of the new cursor. */
  lemma Moved(t: Text, cursor: nat, b: seq<string>)
    requires t.cursor <= |t.chars| && cursor <= |t.chars| && |b| > 0 && Lines(t.chars[..cursor]) == b
    ensures View(t.(cursor := cursor)) == View(t).(row := |b| - 1, col := |Last(b)|)
  {
  }

  lemma Parts(t: Text)
    requires Ok(t)
    ensures var b, a := Lines(t.chars[..t.cursor]), Lines(t.chars[t.cursor..]);
            && View(t) == At(Front(b), Last(b), a[0], a[1..]) && DocOk(View(t))
  {
    var b, a := Lines(t.chars[..t.cursor]), Lines(t.chars[t.cursor..]);
    assert t.chars == t.chars[..t.cursor] + t.chars[t.cursor..];
    ViewAt(t.chars[..t.cursor], t.chars[t.cursor..], Front(b), Last(b), a[0], a[1..]);
  }

  /** Where the cursor goes on the up arrow, and the lines in front of it. */
  lemma UpCut(t: Text)
    requires Ok(t)
    ensures var b := Lines(t.chars[..t.cursor]); var u := PressUp(t);
            && u == t.(cursor := u.cursor) && u.cursor <= |t.chars|
            && (|b| == 1 ==> Lines(t.chars[..u.cursor]) == [""])
            && (|b| > 1 ==> var f := Front(b);
                  Lines(t.chars[..u.cursor]) == Front(f) + [Last(f)[..Min(|Last(b)|, |Last(f)|)]])
  {
    var s, pos := t.chars, t.cursor;
    var r := LineStart(s, pos);
    AboveStart(s, pos);
    StartCuts(s, pos, r);
    if r > 0 {
      var ps := LineStart(s, r - 1);
      StartCuts(s, r - 1, r - 1);
      StartCuts(s, r - 1, ps + Min(pos - r, r - 1 - ps));
    } else {
      assert s[..0] == "";
    }
    hide LineStart;
  }

  lemma UpRefines(t: Text)
    requires Ok(t)
    ensures Ok(PressUp(t)) && DocOk(View(t)) && View(PressUp(t)) == DocPress(View(t), Up)
  {
    var b, u := Lines(t.chars[..t.cursor]), PressUp(t);
    Parts(t);
    UpCut(t);
    assert View(t).row == |b| - 1 && View(t).col == |Last(b)|;
    hide View, DocPress, PressUp, Lines;
    if |b| > 1 {
      var f := Front(b);
      var k := Min(|Last(b)|, |Last(f)|);
      Moved(t, u.cursor, Front(f) + [Last(f)[..k]]);
      UpOnLines(View(t), f, b, k);
    } else {
      Moved(t, u.cursor, [""]);
      FirstRow(View(t), b);
    }
  }

  lemma FirstRow(d: Doc, b: seq<string>)
    requires DocOk(d) && |b| == 1 && d.row == |b| - 1
    ensures DocPress(d, Up) == d.(row := 0, col := 0)
  {
  }

  lemma UpOnLines(d: Doc, f: seq<string>, b: seq<string>, k: nat)
    requires DocOk(d) && |b| > 1 && f == Front(b) && d.row == |b| - 1 && d.col == |Last(b)|
    requires d.lines[d.row - 1] == Last(f) && k == Min(|Last(b)|, |Last(f)|)
    ensures DocPress(d, Up) == d.(row := |Front(f) + [Last(f)[..k]]| - 1, col := |Last(Front(f) + [Last(f)[..k]])|)
  {
  }

  lemma LastLength(s: string, pos: nat)
    requires pos <= |s|
    ensures LineStart(s, pos) + |Last(Lines(s[..pos]))| == pos
  {
    StartCuts(s, pos, pos);
  }

  /** Where the cursor goes on the down arrow when there is a line below, which ends behind it. */
  lemma DownTarget(t: Text, e: nat, r: nat) returns (k: nat)
    requires Ok(t) && e == LineEnd(t.chars, t.cursor) < |t.chars| && r == LineStart(t.chars, t.cursor)
    ensures PressDown(t) == t.(cursor := e + 1 + k) && e + 1 + k <= LineEnd(t.chars, e + 1)
    ensures k == Min(t.cursor - r, LineEnd(t.chars, e + 1) - (e + 1))
  {
    k := Min(t.cursor - r, LineEnd(t.chars, e + 1) - (e + 1));
  }

  lemma UpToEnd(s: string, pos: nat)
    requires pos <= |s|
    ensures var b, a := Lines(s[..pos]), Lines(s[pos..]); var e := LineEnd(s, pos);
            && Lines(s[..e]) == Front(b) + [Last(b) + a[0]] && (e == |s| <==> |a| == 1)
            && (e < |s| ==> s[e] == '\n' && Lines(s[e + 1..])[0] == a[1])
  {
    hide Lines, LineEnd;
    EndCuts(s, pos);
    var e := LineEnd(s, pos);
    AfterPlain(s[..pos], s[pos..e]);
    assert s[..e] == s[..pos] + s[pos..e];
  }

  lemma DownRefines(t: Text)
    requires Ok(t)
    ensures Ok(PressDown(t)) && DocOk(View(t)) && View(PressDown(t)) == DocPress(View(t), Down)
  {
    Parts(t);
    hide View, DocPress, LineEnd, LineStart;
    if LineEnd(t.chars, t.cursor) < |t.chars| {
      DownBelow(t);
    } else {
      DownLast(t);
    }
  }

  lemma DownLast(t: Text)
    requires Ok(t) && LineEnd(t.chars, t.cursor) == |t.chars| && DocOk(View(t))
    ensures View(PressDown(t)) == DocPress(View(t), Down)
  {
    hide View, DocPress, Lines, At, LineStart, LineEnd;
    UpToEnd(t.chars, t.cursor);
    Parts(t);
    var c := Lines(t.chars[..|t.chars|]);
    Moved(t, |t.chars|, c);
    LastRow(View(t), Lines(t.chars[..t.cursor]), Lines(t.chars[t.cursor..]), c);
  }

  lemma DownBelow(t: Text)
    requires Ok(t) && LineEnd(t.chars, t.cursor) < |t.chars| && DocOk(View(t))
    ensures View(PressDown(t)) == DocPress(View(t), Down)
  {
    hide View, DocPress, Lines, At, LineStart, LineEnd, PressDown, Front, Last;
    var e := LineEnd(t.chars, t.cursor);
    var k := DownTarget(t, e, LineStart(t.chars, t.cursor));
    LastLength(t.chars, t.cursor);
    UpToEnd(t.chars, t.cursor);
    BelowCut(t.chars, e, k);
    Parts(t);
    var c := Lines(t.chars[..e + 1 + k]);
    Moved(t, e + 1 + k, c);
    DownOnLines(View(t), Lines(t.chars[..t.cursor]), Lines(t.chars[t.cursor..]), c);
  }

  /** The text up to `k` characters into the line behind the newline at `e`. */
  lemma BelowCut(s: string, e: nat, k: nat)
    requires e < |s| && s[e] == '\n' && e + 1 + k <= LineEnd(s, e + 1)
    ensures var c := Lines(s[..e + 1 + k]); Front(c) == Lines(s[..e]) && |Last(c)| == k
    ensures LineEnd(s, e + 1) - (e + 1) == |Lines(s[e + 1..])[0]|
  {
    hide Lines, LineEnd;
    EndCuts(s, e + 1);
    assert s[..e + 1] == s[..e] + [s[e]];
    LinesSnoc(s[..e], s[e]);
    var p := s[e + 1..e + 1 + k];
    assert p == s[e + 1..LineEnd(s, e + 1)][..k];
    AfterPlain(s[..e + 1], p);
    assert s[..e + 1 + k] == s[..e + 1] + p;
    assert "" + p == p && Front(Lines(s[..e]) + [""]) == Lines(s[..e]);
  }

  lemma DownOnLines(d: Doc, b: seq<string>, a: seq<string>, c: seq<string>)
    requires |b| > 0 && |a| > 1 && |c| > 0 && d == At(Front(b), Last(b), a[0], a[1..])
    requires Front(c) == Front(b) + [Last(b) + a[0]] && |Last(c)| == Min(|Last(b)|, |a[1]|)
    ensures DocPress(d, Down) == d.(row := |c| - 1, col := |Last(c)|)
  {
  }

  lemma LastRow(d: Doc, b: seq<string>, a: seq<string>, c: seq<string>)
    requires |b| > 0 && |a| == 1 && d == At(Front(b), Last(b), a[0], a[1..])
    requires c == Front(b) + [Last(b) + a[0]]
    ensures DocPress(d, Down) == d.(row := |c| - 1, col := |Last(c)|)
  {
  }

  /** Every key keeps the cursor inside the buffer and does on the lines what it means. */
  lemma PressRefines(t: Text, k: Key)
    requires Ok(t)
    ensures Ok(Press(t, k)) && DocOk(View(t)) && View(Press(t, k)) == DocPress(View(t), k)
  {
    Parts(t);
    match k
    case Insert(c) => InsertOf(t, c);
    case Backspace => BackOf(t, k);
    case Left => BackOf(t, k);
    case Delete => ForthOf(t, k);
    case Right => ForthOf(t, k);
    case Up => UpRefines(t);
    case Down => DownRefines(t);
  }

  lemma InsertOf(t: Text, c: char)
    requires Ok(t) && DocOk(View(t))
    ensures Ok(Press(t, Insert(c))) && View(Press(t, Insert(c))) == DocPress(View(t), Insert(c))
  {
    var b, a := t.chars[..t.cursor], t.chars[t.cursor..];
    assert t.chars == b + a;
    if |t.chars| < ED_BUF_MAX - 1 {
      InsertRefines(b, a, c);
      hide View, DocPress;
    } else {
      SizeOfLines(t.chars);
    }
  }

  lemma BackOf(t: Text, k: Key)
    requires Ok(t) && DocOk(View(t)) && (k.Backspace? || k.Left?)
    ensures Ok(Press(t, k)) && View(Press(t, k)) == DocPress(View(t), k)
  {
    var b, a := t.chars[..t.cursor], t.chars[t.cursor..];
    assert t.chars == b + a;
    if t.cursor > 0 {
      var b', x := b[..t.cursor - 1], b[t.cursor - 1];
      assert b == b' + [x];
      AroundRefines(b', x, a);
      assert t.chars == b' + [x] + a;
      hide View, DocPress;
    }
  }

  lemma ForthOf(t: Text, k: Key)
    requires Ok(t) && DocOk(View(t)) && (k.Delete? || k.Right?)
    ensures Ok(Press(t, k)) && View(Press(t, k)) == DocPress(View(t), k)
  {
    var b, a := t.chars[..t.cursor], t.chars[t.cursor..];
    assert t.chars == b + a;
    assert Lines("") == [""];
    hide Lines;
    if t.cursor < |t.chars| {
      hide View, DocPress;
      AroundRefines(b, a[0], a[1..]);
      assert t.chars == b + [a[0]] + a[1..];
    } else {
      Parts(t);
      assert a == "";
    }
  }

  // ---------------------------------------------------------------- every key sequence

  function Typed(t: Text, keys: seq<Key>): Text
    requires Ok(t)
    decreases |keys|
  {
    if keys == [] then t
    else
      PressRefines(t, keys[0]);
      Typed(Press(t, keys[0]), keys[1..])
  }

  function DocTyped(d: Doc, keys: seq<Key>): Doc
    decreases |keys|
  {
    if keys == [] || !DocOk(d) then d else DocTyped(DocPress(d, keys[0]), keys[1..])
  }

  /** Every key sequence edits the lines as it should and keeps the cursor inside the buffer. */
  lemma {:induction false} TypedRefines(t: Text, keys: seq<Key>)
    requires Ok(t)
    ensures Ok(Typed(t, keys)) && View(Typed(t, keys)) == DocTyped(View(t), keys)
    decreases |keys|
  {
    if keys != [] {
      PressRefines(t, keys[0]);
      TypedRefines(Press(t, keys[0]), keys[1..]);
    }
  }

  /**
   Typing a character and taking it back changes nothing exactly when the buffer has room for it, or at
   the very start.
   */
  lemma InsertThenBackspaceIff(t: Text, c: char)
    requires Ok(t)
    ensures Ok(Press(t, Insert(c)))
    ensures Press(Press(t, Insert(c)), Backspace) == t <==> |t.chars| < ED_BUF_MAX - 1 || t.cursor == 0
  {
  }
}
