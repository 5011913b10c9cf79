/**
 * The notepad's buffer: an array of NUL-terminated rows, the number of rows in use and the cursor, all
 * changed in place. Every operation is proved against its meaning on lines (module NoteText).
 */
module Notepad {
  import opened NoteText

  /** Row r holds the string s and its terminator; what follows the terminator does not matter. */
  ghost predicate RowIs(a: array2<char>, r: int, s: Line)
    requires 0 <= r < a.Length0
    reads a
  {
    |s| < a.Length1 && (forall c :: 0 <= c < |s| ==> a[r, c] == s[c] && s[c] != '\0') && a[r, |s|] == '\0'
  }

  ghost predicate Rows(a: array2<char>, rs: seq<Line>)
    reads a
  {
    |rs| == a.Length0 && forall r :: 0 <= r < |rs| ==> RowIs(a, r, rs[r])
  }

  /** All rows but row r are as they should be. */
  ghost predicate RowsBut(a: array2<char>, rs: seq<Line>, r: int)
    reads a
  {
    |rs| == a.Length0 && forall k :: 0 <= k < |rs| && k != r ==> RowIs(a, k, rs[k])
  }

  lemma RowReplaced(a: array2<char>, rs: seq<Line>, r: int, t: Line)
    requires RowsBut(a, rs, r) && 0 <= r < |rs| && RowIs(a, r, t)
    ensures Rows(a, rs[r := t])
  {}

  /** The lines in use, followed by empty rows. */
  ghost function Padded(ls: seq<Line>): (rs: seq<Line>)
    requires |ls| <= MAX_LINES
    ensures |rs| == MAX_LINES
  {
    ls + seq(MAX_LINES - |ls|, _ => [])
  }

  class Editor {
    const lines: array2<char>
    var nLines: int
    var curLine: int
    var curCol: int
    ghost var doc: Doc

    ghost predicate Inv()
      reads this, lines
    {
      && lines.Length0 == MAX_LINES && lines.Length1 == MAX_COLS
      && Valid(doc) && nLines == |doc.lines| && curLine == doc.row && curCol == doc.col
      && Rows(lines, Padded(doc.lines))
    }

    constructor ()
      ensures Inv() && fresh(lines) && doc == Doc([[]], 0, 0)
    {
      lines := new char[MAX_LINES, MAX_COLS]((r, c) => '\0');
      nLines, curLine, curCol := 1, 0, 0;
      doc := Doc([[]], 0, 0);
    }

    method StrLen(r: int, ghost s: Line) returns (n: int)
      requires 0 <= r < lines.Length0 && RowIs(lines, r, s)
      ensures n == |s|
    {
      n := 0;
      while lines[r, n] != '\0'
        invariant 0 <= n <= |s|
        decreases |s| - n
      {
        n := n + 1;
      }
    }

    /** strcpy of the string at (src, from) to (dst, to). */
    method StrCpy(dst: int, to: int, src: int, from: int, ghost rs: seq<Line>)
      requires Rows(lines, rs) && 0 <= dst < |rs| && 0 <= src < |rs| && dst != src
      requires 0 <= to <= |rs[dst]| && 0 <= from <= |rs[src]| && to + |rs[src]| - from < lines.Length1
      modifies lines
      ensures Rows(lines, rs[dst := rs[dst][..to] + rs[src][from..]])
    {
      ghost var s, d := rs[src], rs[dst];
      assert RowIs(lines, src, s) && RowIs(lines, dst, d);
      var i := 0;
      while lines[src, from + i] != '\0'
        invariant 0 <= i <= |s| - from
        invariant forall c :: to <= c < to + i ==> lines[dst, c] == s[from + (c - to)]
        invariant forall c :: 0 <= c < to ==> lines[dst, c] == d[c]
        invariant RowsBut(lines, rs, dst)
        decreases |s| - from - i
      {
        lines[dst, to + i] := lines[src, from + i];
        i := i + 1;
      }
      lines[dst, to + i] := '\0';
      RowReplaced(lines, rs, dst, d[..to] + s[from..]);
    }

    method CopyRow(dst: int, src: int, ghost rs: seq<Line>)
      requires Rows(lines, rs) && 0 <= dst < |rs| && 0 <= src < |rs| && dst != src
      modifies lines
      ensures Rows(lines, rs[dst := rs[src]])
    {
      assert RowIs(lines, src, rs[src]);
      StrCpy(dst, 0, src, 0, rs);
      assert rs[dst][..0] + rs[src][0..] == rs[src];
    }

    /** The shifting loop of ed_insert: makes room at column col of row r and stores c. */
    method OpenGap(r: int, col: int, c: char, ghost rs: seq<Line>)
      requires Rows(lines, rs) && 0 <= r < |rs| && 0 <= col <= |rs[r]| && |rs[r]| + 1 < lines.Length1 && c != '\0'
      modifies lines
      ensures Rows(lines, rs[r := rs[r][..col] + [c] + rs[r][col..]])
    {
      ghost var s := rs[r];
      assert RowIs(lines, r, s);
      var i := StrLen(r, s);
      while i >= col
        invariant col - 1 <= i <= |s|
        invariant forall k :: 0 <= k <= i ==> lines[r, k] == old(lines[r, k])
        invariant forall k :: i + 1 < k <= |s| + 1 ==> lines[r, k] == old(lines[r, k - 1])
        invariant RowsBut(lines, rs, r)
      {
        lines[r, i + 1] := lines[r, i];
        i := i - 1;
      }
      lines[r, col] := c;
      RowReplaced(lines, rs, r, s[..col] + [c] + s[col..]);
    }

    /** The shifting loop of ed_backspace and ed_delete: closes the gap at column col of row r. */
    method CloseGap(r: int, col: int, ghost rs: seq<Line>)
      requires Rows(lines, rs) && 0 <= r < |rs| && 0 <= col < |rs[r]|
      modifies lines
      ensures Rows(lines, rs[r := rs[r][..col] + rs[r][col + 1..]])
    {
      ghost var s := rs[r];
      assert RowIs(lines, r, s);
      var len := StrLen(r, s);
      var i := col;
      while i < len
        invariant col <= i <= len
        invariant forall k :: 0 <= k < col ==> lines[r, k] == old(lines[r, k])
        invariant forall k :: col <= k < i ==> lines[r, k] == old(lines[r, k + 1])
        invariant forall k :: i <= k <= len ==> lines[r, k] == old(lines[r, k])
        invariant RowsBut(lines, rs, r)
      {
        lines[r, i] := lines[r, i + 1];
        i := i + 1;
      }
      RowReplaced(lines, rs, r, s[..col] + s[col + 1..]);
    }

    /** Storing a terminator cuts a row short. */
    method Cut(r: int, col: int, ghost rs: seq<Line>)
      requires Rows(lines, rs) && 0 <= r < |rs| && 0 <= col <= |rs[r]|
      modifies lines
      ensures Rows(lines, rs[r := rs[r][..col]])
    {
      assert RowIs(lines, r, rs[r]);
      lines[r, col] := '\0';
      RowReplaced(lines, rs, r, rs[r][..col]);
    }

    /** The row loop of ed_enter: moves the rows behind at, up to last, down by one. */
    method ShiftDown(at: int, last: int, ghost rs: seq<Line>) returns (ghost out: seq<Line>)
      requires Rows(lines, rs) && 0 <= at <= last && last + 1 < |rs|
      modifies lines
      ensures Rows(lines, out)
      ensures forall k :: 0 <= k <= at + 1 || last + 1 < k < |rs| ==> out[k] == rs[k]
      ensures forall k :: at + 1 < k <= last + 1 ==> out[k] == rs[k - 1]
    {
      out := rs;
      var i := last;
      while i > at
        invariant at <= i <= last
        invariant Rows(lines, out)
        invariant forall k :: 0 <= k <= i + 1 || last + 1 < k < |rs| ==> out[k] == rs[k]
        invariant forall k :: i + 1 < k <= last + 1 ==> out[k] == rs[k - 1]
      {
        CopyRow(i + 1, i, out);
        out := out[i + 1 := out[i]];
        i := i - 1;
      }
    }

    /** The row loop of a join: moves the rows behind at up by one and empties the last row in use. */
    method ShiftUp(at: int, n: int, ghost rs: seq<Line>) returns (ghost out: seq<Line>)
      requires Rows(lines, rs) && 0 <= at < n <= |rs|
      modifies lines
      ensures Rows(lines, out)
      ensures forall k :: 0 <= k < at || n <= k < |rs| ==> out[k] == rs[k]
      ensures forall k :: at <= k < n - 1 ==> out[k] == rs[k + 1]
      ensures out[n - 1] == []
    {
      out := rs;
      var i := at;
      while i < n - 1
        invariant at <= i < n
        invariant Rows(lines, out)
        invariant forall k :: 0 <= k < at || i <= k < |rs| ==> out[k] == rs[k]
        invariant forall k :: at <= k < i ==> out[k] == rs[k + 1]
      {
        CopyRow(i, i + 1, out);
        out := out[i := out[i + 1]];
        i := i + 1;
      }
      Cut(n - 1, 0, out);
      assert out[n - 1][..0] == [];
      out := out[n - 1 := []];
    }

    method Insert(c: char)
      requires Inv() && KeyOk(Char(c))
      modifies this, lines
      ensures Inv() && doc == DoInsert(old(doc), c)
    {
      KeyKeepsValid(doc, Char(c));
      ghost var rs := Padded(doc.lines);
      assert rs[doc.row] == Cur(doc);
      var len := StrLen(curLine, Cur(doc));
      if len >= MAX_COLS - 1 { return; }
      OpenGap(curLine, curCol, c, rs);
      curCol := curCol + 1;
      doc := DoInsert(doc, c);
      assert Padded(doc.lines) == rs[curLine := Cur(doc)];
    }

    /** Splits row r at column c, given n rows in use. */
    method SplitAt(r: int, c: int, n: int, ghost rs: seq<Line>) returns (ghost out: seq<Line>)
      requires Rows(lines, rs) && 0 <= r < n && n + 1 < |rs| && 0 <= c <= |rs[r]|
      modifies lines
      ensures Rows(lines, out) && out[r] == rs[r][..c] && out[r + 1] == rs[r][c..]
      ensures forall k :: 0 <= k < r || n + 1 < k < |rs| ==> out[k] == rs[k]
      ensures forall k :: r + 1 < k <= n + 1 ==> out[k] == rs[k - 1]
    {
      assert RowIs(lines, r, rs[r]);
      ghost var mid := ShiftDown(r, n, rs);
      StrCpy(r + 1, 0, r, c, mid);
      assert mid[r + 1][..0] + mid[r][c..] == rs[r][c..];
      mid := mid[r + 1 := rs[r][c..]];
      Cut(r, c, mid);
      out := mid[r := rs[r][..c]];
    }

    method Enter()
      requires Inv()
      modifies this, lines
      ensures Inv() && doc == DoEnter(old(doc))
    {
      KeyKeepsValid(doc, Key.Enter);
      if nLines >= MAX_LINES - 1 { return; }
      ghost var rs := Padded(doc.lines);
      PaddedAt(doc.lines, curLine);
      ghost var out := SplitAt(curLine, curCol, nLines, rs);
      EnterRows(doc, rs, out);
      nLines := nLines + 1;
      curLine := curLine + 1;
      curCol := 0;
      doc := DoEnter(doc);
    }

    /** Joins row r + 1 to row r: copy to its end, then move the rows behind it up. */
    method JoinRow(r: int, prevLen: int, ghost rs: seq<Line>) returns (ghost out: seq<Line>)
      requires lines.Length1 == MAX_COLS && Rows(lines, rs) && 0 <= r && r + 1 < nLines <= |rs|
      requires prevLen == |rs[r]| && |rs[r]| + |rs[r + 1]| < MAX_COLS
      modifies lines
      ensures Rows(lines, out) && Joined(rs, r, nLines, out)
    {
      StrCpy(r, prevLen, r + 1, 0, rs);
      ghost var mid := rs[r := rs[r] + rs[r + 1]];
      assert rs[r][..prevLen] + rs[r + 1][0..] == rs[r] + rs[r + 1];
      out := ShiftUp(r + 1, nLines, mid);
    }

    method Backspace()
      requires Inv()
      modifies this, lines
      ensures Inv() && doc == DoBackspace(old(doc))
    {
      if curCol > 0 {
        EraseLeft();
      } else if curLine > 0 {
        JoinLeft();
      }
    }

    /** Inside a line: the characters behind the cursor move over the one before it. */
    method EraseLeft()
      requires Inv() && curCol > 0
      modifies this, lines
      ensures Inv() && doc == DoBackspace(old(doc))
    {
      KeyKeepsValid(doc, Key.Backspace);
      ghost var rs := Padded(doc.lines);
      assert rs[curLine] == Cur(doc);
      CloseGap(curLine, curCol - 1, rs);
      curCol := curCol - 1;
      doc := DoBackspace(doc);
      assert Padded(doc.lines) == rs[curLine := Cur(doc)];
    }

    /** At the start of a line: it is joined to the one above if they fit. */
    method JoinLeft()
      requires Inv() && curCol == 0 && curLine > 0
      modifies this, lines
      ensures Inv() && doc == DoBackspace(old(doc))
    {
      KeyKeepsValid(doc, Key.Backspace);
      ghost var rs := Padded(doc.lines);
      assert rs[curLine] == Cur(doc);
      assert rs[curLine - 1] == doc.lines[curLine - 1];
      var prevLen := StrLen(curLine - 1, rs[curLine - 1]);
      var curLen := StrLen(curLine, rs[curLine]);
      if prevLen + curLen >= MAX_COLS { return; }
      ghost var out := JoinRow(curLine - 1, prevLen, rs);
      JoinedRows(doc.lines, curLine - 1, rs, out);
      doc := DoBackspace(doc);
      nLines := nLines - 1;
      curLine := curLine - 1;
      curCol := prevLen;
    }

    method Delete()
      requires Inv()
      modifies this, lines
      ensures Inv() && doc == DoDelete(old(doc))
    {
      KeyKeepsValid(doc, Key.Delete);
      ghost var rs := Padded(doc.lines);
      assert rs[curLine] == Cur(doc);
      var len := StrLen(curLine, Cur(doc));
      if curCol < len {
        CloseGap(curLine, curCol, rs);
        doc := DoDelete(doc);
        assert Padded(doc.lines) == rs[curLine := Cur(doc)];
      } else if curLine < nLines - 1 {
        assert rs[curLine + 1] == doc.lines[curLine + 1];
        var nxtLen := StrLen(curLine + 1, rs[curLine + 1]);
        if len + nxtLen < MAX_COLS {
          ghost var out := JoinRow(curLine, len, rs);
          JoinedRows(doc.lines, curLine, rs, out);
          doc := DoDelete(doc);
          nLines := nLines - 1;
        }
      }
    }

    /** The length of a row in use. */
    method LineLength(r: int) returns (n: int)
      requires Inv() && 0 <= r < nLines
      ensures n == |doc.lines[r]|
    {
      PaddedAt(doc.lines, r);
      n := StrLen(r, doc.lines[r]);
    }

    method MoveLeft()
      requires Inv()
      modifies this`curLine, this`curCol, this`doc
      ensures Inv() && doc == DoMove(old(doc), Left)
    {
      if curCol > 0 {
        curCol := curCol - 1;
      } else if curLine > 0 {
        var n := LineLength(curLine - 1);
        curLine, curCol := curLine - 1, n;
      }
      doc := DoMove(doc, Left);
    }

    method MoveRight()
      requires Inv()
      modifies this`curLine, this`curCol, this`doc
      ensures Inv() && doc == DoMove(old(doc), Right)
    {
      var len := LineLength(curLine);
      if curCol < len {
        curCol := curCol + 1;
      } else if curLine < nLines - 1 {
        curLine, curCol := curLine + 1, 0;
      }
      doc := DoMove(doc, Right);
    }

    method MoveUp()
      requires Inv()
      modifies this`curLine, this`curCol, this`doc
      ensures Inv() && doc == DoMove(old(doc), Up)
    {
      if curLine > 0 {
        var len := LineLength(curLine - 1);
        curLine := curLine - 1;
        if curCol > len { curCol := len; }
      }
      doc := DoMove(doc, Up);
    }

    method MoveDown()
      requires Inv()
      modifies this`curLine, this`curCol, this`doc
      ensures Inv() && doc == DoMove(old(doc), Down)
    {
      if curLine < nLines - 1 {
        var len := LineLength(curLine + 1);
        curLine := curLine + 1;
        if curCol > len { curCol := len; }
      }
      doc := DoMove(doc, Down);
    }

    method MoveHome()
      requires Inv()
      modifies this`curCol, this`doc
      ensures Inv() && doc == DoMove(old(doc), Home)
    {
      curCol := 0;
      doc := DoMove(doc, Home);
    }

    method MoveEnd()
      requires Inv()
      modifies this`curCol, this`doc
      ensures Inv() && doc == DoMove(old(doc), End)
    {
      curCol := LineLength(curLine);
      doc := DoMove(doc, End);
    }

    /** ed_key: the dispatch on key codes. */
    method PressKey(key: nat)
      requires Inv()
      modifies this, lines
      ensures Inv() && doc == DoKey(old(doc), KeyOf(key))
      ensures Pressed(Flatten(old(doc)), key, Flatten(doc))
      ensures key == 0x104 ==> curLine == old(curLine) && curCol == 0 && doc.lines == old(doc.lines)
      ensures key == 0x105 ==> curLine == old(curLine) && curCol == |Cur(doc)| && doc.lines == old(doc.lines)
    {
      var k := KeyOf(key);
      KeyRefines(doc, k);
      KeyPressed(Flatten(doc), key);
      match k {
        case Char(c) => Insert(c);
        case Enter => Enter();
        case Backspace => Backspace();
        case Delete => Delete();
        case Left => MoveLeft();
        case Right => MoveRight();
        case Up => MoveUp();
        case Down => MoveDown();
        case Home => MoveHome();
        case End => MoveEnd();
        case Ignored =>
      }
    }

    /** A whole session: whatever is typed, the buffer stays in order and means the flat editor's text. */
    method Session(keys: seq<nat>) returns (ghost trace: seq<Flat>)
      requires Inv()
      modifies this, lines
      ensures Inv()
      ensures FlatRun(Flatten(old(doc)), KeysOf(keys), Flatten(doc))
      ensures Typed(keys, trace) && trace[0] == Flatten(old(doc)) && trace[|keys|] == Flatten(doc)
    {
      ghost var start := doc;
      trace := [Flatten(doc)];
      for i := 0 to |keys|
        invariant Inv() && doc == DoKeys(start, KeysOf(keys[..i]))
        invariant Typed(keys[..i], trace) && trace[0] == Flatten(start) && trace[i] == Flatten(doc)
      {
        KeysOfExtend(keys, i);
        DoKeysExtend(start, KeysOf(keys[..i]), KeyOf(keys[i]));
        PressKey(keys[i]);
        TypedMore(keys, i, trace, Flatten(doc));
        trace := trace + [Flatten(doc)];
      }
      assert keys[..|keys|] == keys;
      SessionRefines(start, KeysOf(keys));
    }
  }

  const KBD_KEY_LEFT: nat := 0x100
  const KBD_KEY_RIGHT: nat := 0x101
  const KBD_KEY_UP: nat := 0x102
  const KBD_KEY_DOWN: nat := 0x103
  const KBD_KEY_HOME: nat := 0x104
  const KBD_KEY_END: nat := 0x105
  const KBD_KEY_DEL: nat := 0x109

  function KeyOf(key: nat): (k: Key)
    ensures KeyOk(k)
  {
    if 0x20 <= key < 0x7F then Char(key as char)
    else if key == 0x0A then Key.Enter
    else if key == 0x08 then Key.Backspace
    else if key == 0x09 then Char('\t')
    else if key == KBD_KEY_LEFT then Left
    else if key == KBD_KEY_RIGHT then Right
    else if key == KBD_KEY_UP then Up
    else if key == KBD_KEY_DOWN then Down
    else if key == KBD_KEY_HOME then Home
    else if key == KBD_KEY_END then End
    else if key == KBD_KEY_DEL then Key.Delete
    else Ignored
  }

  /** Every key code does to the flat text what it should. */
  lemma KeyPressed(f: Flat, key: nat)
    requires f.off <= |f.text|
    ensures Pressed(f, key, FlatKey(f, KeyOf(key)))
  {
    if key == 0x102 {
      UpPressed(f);
    } else if key == 0x103 {
      DownPressed(f);
    } else if key == 0x104 {
      LineStartMeans(f.text, f.off);
    } else if key == 0x105 {
      LineEndMeans(f.text, f.off);
    }
  }

  /** Marks the sessions that a proof looks into. */
  ghost predicate Watching(keys: seq<nat>, trace: seq<Flat>, i: int) { true }

  /** A session: the flat texts between the keys, each made from the one before it by its key code. */
  ghost predicate Typed(keys: seq<nat>, trace: seq<Flat>)
  {
    && |trace| == |keys| + 1
    && forall m: int {:trigger Watching(keys, trace, m)} :: Watching(keys, trace, m) ==>
         forall i :: 0 <= i < |keys| ==> Pressed(trace[i], keys[i], trace[i + 1])
  }

  lemma TypedMore(keys: seq<nat>, i: nat, trace: seq<Flat>, f: Flat)
    requires i < |keys| && Typed(keys[..i], trace) && Pressed(trace[i], keys[i], f)
    ensures Typed(keys[..i + 1], trace + [f])
  {
    assert Watching(keys[..i], trace, 0);
    var ks, tr := keys[..i + 1], trace + [f];
    forall j | 0 <= j < |ks| ensures Pressed(tr[j], ks[j], tr[j + 1]) {
      if j < i {
        assert Pressed(trace[j], keys[..i][j], trace[j + 1]);
      }
    }
  }

  function KeysOf(keys: seq<nat>): (ks: seq<Key>)
    ensures |ks| == |keys| && forall i :: 0 <= i < |ks| ==> ks[i] == KeyOf(keys[i]) && KeyOk(ks[i])
  {
    seq(|keys|, i requires 0 <= i < |keys| => KeyOf(keys[i]))
  }

  lemma KeysOfExtend(keys: seq<nat>, i: nat)
    requires i < |keys|
    ensures KeysOf(keys[..i + 1]) == KeysOf(keys[..i]) + [KeyOf(keys[i])]
  {}

  lemma {:induction false} DoKeysExtend(d: Doc, ks: seq<Key>, k: Key)
    requires Valid(d) && KeyOk(k) && forall i :: 0 <= i < |ks| ==> KeyOk(ks[i])
    ensures DoKeys(d, ks + [k]) == DoKey(DoKeys(d, ks), k)
    decreases |ks|
  {
    if ks == [] {
      KeyKeepsValid(d, k);
      assert ks + [k] == [k] && [k][1..] == [];
    } else {
      KeyKeepsValid(d, ks[0]);
      assert (ks + [k])[1..] == ks[1..] + [k];
      DoKeysExtend(DoKey(d, ks[0]), ks[1..], k);
    }
  }

  lemma PaddedAt(ls: seq<Line>, k: nat)
    requires |ls| <= MAX_LINES && k < MAX_LINES
    ensures Padded(ls)[k] == if k < |ls| then ls[k] else []
  {}

  /** The rows after a line break are the rows of the split document. */
  lemma EnterRows(d: Doc, rs: seq<Line>, out: seq<Line>)
    requires Valid(d) && |d.lines| < MAX_LINES - 1 && rs == Padded(d.lines) && |out| == MAX_LINES
    requires out[d.row] == Cur(d)[..d.col] && out[d.row + 1] == Cur(d)[d.col..]
    requires forall k :: 0 <= k < d.row || |d.lines| + 1 < k < MAX_LINES ==> out[k] == rs[k]
    requires forall k :: d.row + 1 < k <= |d.lines| + 1 ==> out[k] == rs[k - 1]
    ensures out == Padded(SplitRow(d.lines, d.row, d.col))
  {
    var sp := SplitRow(d.lines, d.row, d.col);
    var p := Padded(sp);
    forall k | 0 <= k < MAX_LINES ensures out[k] == p[k] {
      PaddedAt(sp, k);
      PaddedAt(d.lines, k);
      if k > 0 {
        PaddedAt(d.lines, k - 1);
      }
    }
  }

  /** Row r + 1 of the first n rows has been joined to row r. */
  ghost predicate Joined(rs: seq<Line>, r: int, n: int, out: seq<Line>)
  {
    && 0 <= r && r + 1 < n <= |rs| == |out|
    && out[r] == rs[r] + rs[r + 1] && out[n - 1] == []
    && (forall k :: 0 <= k < r || n <= k < |rs| ==> out[k] == rs[k])
    && forall k :: r < k < n - 1 ==> out[k] == rs[k + 1]
  }

  lemma JoinedRows(ls: seq<Line>, r: nat, rs: seq<Line>, out: seq<Line>)
    requires |ls| <= MAX_LINES && rs == Padded(ls) && Joined(rs, r, |ls|, out)
    ensures out == Padded(JoinRows(ls, r))
  {
    var js := JoinRows(ls, r);
    var p := Padded(js);
    PaddedAt(ls, r);
    PaddedAt(ls, r + 1);
    forall k | 0 <= k < MAX_LINES ensures out[k] == p[k] {
      PaddedAt(js, k);
      PaddedAt(ls, k);
      if k + 1 < MAX_LINES {
        PaddedAt(ls, k + 1);
      }
    }
  }
}
