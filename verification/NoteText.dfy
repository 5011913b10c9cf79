/**
 * The editor's text, twice: as lines with a cursor row and column, the way the notepad keeps it, and as
 * one flat text with a single offset, the way a reader thinks of it.
 */
module NoteText {

  const MAX_LINES: nat := 256
  const MAX_COLS: nat := 200

  type Line = seq<char>

  datatype Doc = Doc(lines: seq<Line>, row: nat, col: nat)

  datatype Flat = Flat(text: string, off: nat)

  datatype Key =
    | Char(c: char)
    | Enter
    | Backspace
    | Left | Right | Up | Down | Home | End | Delete
    | Ignored

  ghost predicate LineOk(l: Line)
  {
    |l| < MAX_COLS && forall i :: 0 <= i < |l| ==> l[i] != '\n' && l[i] != '\0'
  }

  ghost predicate Valid(d: Doc)
  {
    && 1 <= |d.lines| < MAX_LINES
    && LinesOk(d.lines)
    && d.row < |d.lines| && d.col <= |d.lines[d.row]|
  }

  predicate KeyOk(k: Key) { k.Char? ==> k.c != '\n' && k.c != '\0' }

  // ---- the editor on lines

  function Cur(d: Doc): (l: Line)
    requires d.row < |d.lines|
  {
    d.lines[d.row]
  }

  function DoInsert(d: Doc, c: char): (r: Doc)
    requires Valid(d)
  {
    var l := Cur(d);
    if |l| >= MAX_COLS - 1 then d
    else d.(lines := d.lines[d.row := l[..d.col] + [c] + l[d.col..]], col := d.col + 1)
  }

  /** The rows of a split line. */
  function SplitRow(ls: seq<Line>, r: nat, c: nat): (s: seq<Line>)
    requires r < |ls| && c <= |ls[r]|
  {
    ls[..r] + [ls[r][..c], ls[r][c..]] + ls[r + 1..]
  }

  function DoEnter(d: Doc): (r: Doc)
    requires Valid(d)
  {
    if |d.lines| >= MAX_LINES - 1 then d
    else Doc(SplitRow(d.lines, d.row, d.col), d.row + 1, 0)
  }

  /** Rows r and r + 1 made one. */
  function JoinRows(lines: seq<Line>, r: nat): (s: seq<Line>)
    requires r + 1 < |lines|
  {
    lines[..r] + [lines[r] + lines[r + 1]] + lines[r + 2..]
  }

  function DoBackspace(d: Doc): (r: Doc)
    requires Valid(d)
  {
    var l := Cur(d);
    if d.col > 0 then d.(lines := d.lines[d.row := l[..d.col - 1] + l[d.col..]], col := d.col - 1)
    else if d.row > 0 && |d.lines[d.row - 1]| + |l| < MAX_COLS then
      Doc(JoinRows(d.lines, d.row - 1), d.row - 1, |d.lines[d.row - 1]|)
    else d
  }

  function DoDelete(d: Doc): (r: Doc)
    requires Valid(d)
  {
    var l := Cur(d);
    if d.col < |l| then d.(lines := d.lines[d.row := l[..d.col] + l[d.col + 1..]])
    else if d.row + 1 < |d.lines| && |l| + |d.lines[d.row + 1]| < MAX_COLS then
      d.(lines := JoinRows(d.lines, d.row))
    else d
  }

  function Min(a: nat, b: nat): (m: nat) { if a < b then a else b }

  function DoMove(d: Doc, k: Key): (r: Doc)
    requires Valid(d)
  {
    match k
    case Left =>
      if d.col > 0 then d.(col := d.col - 1)
      else if d.row > 0 then d.(row := d.row - 1, col := |d.lines[d.row - 1]|)
      else d
    case Right =>
      if d.col < |Cur(d)| then d.(col := d.col + 1)
      else if d.row + 1 < |d.lines| then d.(row := d.row + 1, col := 0)
      else d
    case Up => if d.row > 0 then d.(row := d.row - 1, col := Min(d.col, |d.lines[d.row - 1]|)) else d
    case Down => if d.row + 1 < |d.lines| then d.(row := d.row + 1, col := Min(d.col, |d.lines[d.row + 1]|)) else d
    case Home => d.(col := 0)
    case End => d.(col := |Cur(d)|)
    case _ => d
  }

  function DoKey(d: Doc, k: Key): (r: Doc)
    requires Valid(d)
  {
    match k
    case Char(c) => DoInsert(d, c)
    case Enter => DoEnter(d)
    case Backspace => DoBackspace(d)
    case Delete => DoDelete(d)
    case _ => DoMove(d, k)
  }

  ghost predicate LinesOk(ls: seq<Line>)
  {
    forall i :: 0 <= i < |ls| ==> LineOk(ls[i])
  }

  lemma LinesOkAppend(x: seq<Line>, y: seq<Line>)
    requires LinesOk(x) && LinesOk(y)
    ensures LinesOk(x + y)
  {}

  lemma LinesOkSplice(ls: seq<Line>, from: nat, mid: seq<Line>, to: nat)
    requires from <= |ls| && to <= |ls| && LinesOk(ls) && LinesOk(mid)
    ensures LinesOk(ls[..from] + mid + ls[to..])
  {
    LinesOkAppend(ls[..from], mid);
    LinesOkAppend(ls[..from] + mid, ls[to..]);
  }

  lemma EnterKeepsValid(d: Doc)
    requires Valid(d)
    ensures Valid(DoEnter(d))
  {
    var l := Cur(d);
    assert LineOk(l);
    LinesOkSplice(d.lines, d.row, [l[..d.col], l[d.col..]], d.row + 1);
  }

  lemma JoinKeepsValid(ls: seq<Line>, r: nat)
    requires LinesOk(ls) && r + 1 < |ls| && |ls[r]| + |ls[r + 1]| < MAX_COLS
    ensures LinesOk(JoinRows(ls, r))
  {
    assert LineOk(ls[r]) && LineOk(ls[r + 1]);
    assert LineOk(ls[r] + ls[r + 1]);
    LinesOkSplice(ls, r, [ls[r] + ls[r + 1]], r + 2);
  }

  /** Every key keeps the text within its limits and the cursor inside its line. */
  lemma KeyKeepsValid(d: Doc, k: Key)
    requires Valid(d) && KeyOk(k)
    ensures Valid(DoKey(d, k))
  {
    assert LinesOk(d.lines) && LineOk(Cur(d));
    match k {
      case Enter => EnterKeepsValid(d);
      case Backspace =>
        if d.col == 0 && d.row > 0 && |d.lines[d.row - 1]| + |Cur(d)| < MAX_COLS {
          JoinKeepsValid(d.lines, d.row - 1);
        }
      case Delete =>
        if d.col == |Cur(d)| && d.row + 1 < |d.lines| && |Cur(d)| + |d.lines[d.row + 1]| < MAX_COLS {
          JoinKeepsValid(d.lines, d.row);
        }
      case _ =>
    }
  }

  // ---- the editor on flat text

  /** Start of the line that holds offset o. */
  function LineStart(t: string, o: nat): (s: nat)
    requires o <= |t|
    ensures s <= o
    decreases o
  {
    if o == 0 || t[o - 1] == '\n' then o else LineStart(t, o - 1)
  }

  /** s is the start of the line that holds offset o: no newline lies between, and one before s or nothing. */
  ghost predicate StartsLine(t: string, s: nat, o: nat)
  {
    s <= o <= |t| && (s == 0 || t[s - 1] == '\n') && '\n' !in t[s..o]
  }

  /** e is the end of the line that holds offset o. */
  ghost predicate EndsLine(t: string, o: nat, e: nat)
  {
    o <= e <= |t| && (e == |t| || t[e] == '\n') && '\n' !in t[o..e]
  }

  lemma {:induction false} LineStartMeans(t: string, o: nat)
    requires o <= |t|
    ensures StartsLine(t, LineStart(t, o), o)
  {
    if o > 0 && t[o - 1] != '\n' {
      LineStartMeans(t, o - 1);
      var s := LineStart(t, o - 1);
      assert t[s..o] == t[s..o - 1] + [t[o - 1]];
    }
  }

  lemma {:induction false} LineEndMeans(t: string, o: nat)
    requires o <= |t|
    ensures EndsLine(t, o, LineEnd(t, o))
    decreases |t| - o
  {
    if o < |t| && t[o] != '\n' {
      LineEndMeans(t, o + 1);
      var e := LineEnd(t, o + 1);
      assert t[o..e] == [t[o]] + t[o + 1..e];
    }
  }

  /** End of the line that holds offset o, before its newline. */
  function LineEnd(t: string, o: nat): (e: nat)
    requires o <= |t|
    ensures o <= e <= |t|
    decreases |t| - o
  {
    if o == |t| || t[o] == '\n' then o else LineEnd(t, o + 1)
  }

  function LineCount(t: string): (n: nat)
  {
    if t == [] then 1 else LineCount(t[..|t| - 1]) + (if t[|t| - 1] == '\n' then 1 else 0)
  }

  function FlatInsert(f: Flat, c: char): (r: Flat)
    requires f.off <= |f.text|
  {
    Flat(f.text[..f.off] + [c] + f.text[f.off..], f.off + 1)
  }

  function FlatRemove(f: Flat, at: nat): (r: Flat)
    requires at < |f.text|
  {
    Flat(f.text[..at] + f.text[at + 1..], at)
  }

  /** Length of the line that removing the newline at position at would make. */
  function JoinedLength(t: string, at: nat): (n: nat)
    requires at < |t|
  {
    (at - LineStart(t, at)) + (LineEnd(t, at + 1) - (at + 1))
  }

  predicate MayRemove(t: string, at: nat)
    requires at < |t|
  {
    t[at] != '\n' || JoinedLength(t, at) < MAX_COLS
  }

  /** What each key means on flat text: insert, remove before, remove at, or move; a full line or page refuses. */
  function FlatKey(f: Flat, k: Key): (r: Flat)
    requires f.off <= |f.text|
  {
    var t, o := f.text, f.off;
    match k
    case Char(c) => if LineEnd(t, o) - LineStart(t, o) >= MAX_COLS - 1 then f else FlatInsert(f, c)
    case Enter => if LineCount(t) >= MAX_LINES - 1 then f else FlatInsert(f, '\n')
    case Backspace => if o > 0 && MayRemove(t, o - 1) then FlatRemove(f, o - 1) else f
    case Delete => if o < |t| && MayRemove(t, o) then FlatRemove(f, o) else f
    case Left => if o > 0 then f.(off := o - 1) else f
    case Right => if o < |t| then f.(off := o + 1) else f
    case Home => f.(off := LineStart(t, o))
    case End => f.(off := LineEnd(t, o))
    case Up =>
      var s := LineStart(t, o);
      if s == 0 then f
      else
        var p := LineStart(t, s - 1);
        f.(off := p + Min(o - s, s - 1 - p))
    case Down =>
      var e := LineEnd(t, o);
      if e == |t| then f
      else f.(off := e + 1 + Min(o - LineStart(t, o), LineEnd(t, e + 1) - (e + 1)))
    case Ignored => f
  }

  // ---- key codes

  predicate Printable(code: nat) { 0x20 <= code < 0x7F || code == 0x09 }

  /** Text and offset after a move: the text stays. */
  ghost predicate MovesTo(f: Flat, g: Flat, off: nat) { g.text == f.text && g.off == off }

  ghost predicate Inserts(f: Flat, g: Flat, c: char)
    requires f.off <= |f.text|
  {
    g.text == f.text[..f.off] + [c] + f.text[f.off..] && g.off == f.off + 1
  }

  ghost predicate Removes(f: Flat, g: Flat, at: nat)
    requires at < |f.text|
  {
    g.text == f.text[..at] + f.text[at + 1..] && g.off == at
  }

  /** What every key code does to the flat text. */
  ghost predicate Pressed(f: Flat, code: nat, g: Flat)
  {
    var t, o := f.text, f.off;
    o <= |t| &&
    if Printable(code) then
      if LineEnd(t, o) - LineStart(t, o) >= MAX_COLS - 1 then g == f else Inserts(f, g, code as char)
    else if code == 0x0A then if LineCount(t) >= MAX_LINES - 1 then g == f else Inserts(f, g, '\n')
    else if code == 0x08 then if o > 0 && MayRemove(t, o - 1) then Removes(f, g, o - 1) else g == f
    else if code == 0x109 then if o < |t| && MayRemove(t, o) then Removes(f, g, o) else g == f
    else if code == 0x100 then MovesTo(f, g, if o > 0 then o - 1 else 0)
    else if code == 0x101 then MovesTo(f, g, if o < |t| then o + 1 else o)
    else if code == 0x102 then PressedUp(f, g)
    else if code == 0x103 then PressedDown(f, g)
    else if code == 0x104 then g.text == t && StartsLine(t, g.off, o)
    else if code == 0x105 then g.text == t && EndsLine(t, o, g.off)
    else g == f
  }

  /** The same column of the line above, or its end if it is shorter; nothing on the first line. */
  ghost predicate PressedUp(f: Flat, g: Flat)
  {
    exists s: nat, p: nat :: AboveAt(f, g, s, p)
  }

  ghost predicate AboveAt(f: Flat, g: Flat, s: nat, p: nat)
  {
    && StartsLine(f.text, s, f.off)
    && if s == 0 then g == f
       else
         && g.text == f.text && StartsLine(f.text, p, s - 1) && p <= g.off < s
         && (g.off - p == f.off - s || (g.off == s - 1 && g.off - p < f.off - s))
  }

  /** The same column of the line below, or its end if it is shorter; nothing on the last line. */
  ghost predicate PressedDown(f: Flat, g: Flat)
  {
    exists s: nat, e: nat, d: nat :: BelowAt(f, g, s, e, d)
  }

  ghost predicate BelowAt(f: Flat, g: Flat, s: nat, e: nat, d: nat)
  {
    && StartsLine(f.text, s, f.off) && EndsLine(f.text, f.off, e)
    && if e == |f.text| then g == f
       else
         && g.text == f.text && EndsLine(f.text, e + 1, d) && e < g.off <= d
         && (g.off - (e + 1) == f.off - s || (g.off == d && g.off - (e + 1) < f.off - s))
  }

  lemma UpPressed(f: Flat)
    requires f.off <= |f.text|
    ensures PressedUp(f, FlatKey(f, Up))
  {
    var s := LineStart(f.text, f.off);
    LineStartMeans(f.text, f.off);
    var p := if s == 0 then 0 else LineStart(f.text, s - 1);
    if s > 0 { LineStartMeans(f.text, s - 1); }
    assert AboveAt(f, FlatKey(f, Up), s, p);
  }

  lemma DownPressed(f: Flat)
    requires f.off <= |f.text|
    ensures PressedDown(f, FlatKey(f, Down))
  {
    var s, e := LineStart(f.text, f.off), LineEnd(f.text, f.off);
    LineStartMeans(f.text, f.off);
    LineEndMeans(f.text, f.off);
    var d := if e == |f.text| then 0 else LineEnd(f.text, e + 1);
    if e < |f.text| { LineEndMeans(f.text, e + 1); }
    assert BelowAt(f, FlatKey(f, Down), s, e, d);
  }

  // ---- joining lines

  /** Lines each followed by a newline. */
  function Before(ls: seq<Line>): (t: string)
  {
    if ls == [] then "" else Before(ls[..|ls| - 1]) + ls[|ls| - 1] + "\n"
  }

  /** Lines each preceded by a newline. */
  function After(ls: seq<Line>): (t: string)
  {
    if ls == [] then "" else "\n" + ls[0] + After(ls[1..])
  }

  function Text(ls: seq<Line>): (t: string)
    requires ls != []
  {
    ls[0] + After(ls[1..])
  }

  function Flatten(d: Doc): (f: Flat)
    requires d.row < |d.lines|
  {
    Flat(Text(d.lines), |Before(d.lines[..d.row])| + d.col)
  }

  /** The text around any chosen row. */
  lemma {:induction false} TextAround(ls: seq<Line>, r: nat)
    requires r < |ls|
    ensures Text(ls) == Before(ls[..r]) + ls[r] + After(ls[r + 1..])
  {
    if r > 0 {
      TextAround(ls, r - 1);
      assert ls[r - 1 + 1..] == [ls[r]] + ls[r + 1..];
      assert ls[..r][..r - 1] == ls[..r - 1];
      assert After(ls[r..]) == "\n" + ls[r] + After(ls[r + 1..]);
      var b, l, n, a := Before(ls[..r - 1]), ls[r - 1], ls[r], After(ls[r + 1..]);
      assert b + l + ("\n" + n + a) == b + l + "\n" + n + a;
    } else {
      assert ls[..0] == [];
      assert Before([]) + ls[0] + After(ls[1..]) == ls[0] + After(ls[1..]);
    }
  }

  lemma {:induction false} BeforeEnd(ls: seq<Line>)
    ensures ls != [] ==> Before(ls) != "" && Before(ls)[|Before(ls)| - 1] == '\n'
  {}

  lemma AfterStart(ls: seq<Line>)
    ensures ls != [] ==> After(ls) != "" && After(ls)[0] == '\n'
  {}

  /** Within b + l + a the line l is found again from any offset inside it. */
  lemma {:induction false} FindStart(b: string, l: Line, a: string, c: nat)
    requires c <= |l| && (b == "" || b[|b| - 1] == '\n') && forall i :: 0 <= i < |l| ==> l[i] != '\n'
    ensures |b| + c <= |b + l + a| && LineStart(b + l + a, |b| + c) == |b|
  {
    var t := b + l + a;
    if c > 0 {
      FindStart(b, l, a, c - 1);
      assert t[|b| + c - 1] == l[c - 1];
    } else if b != "" {
      assert t[|b| - 1] == b[|b| - 1];
    }
  }

  lemma {:induction false} FindEnd(b: string, l: Line, a: string, c: nat)
    requires c <= |l| && (a == "" || a[0] == '\n') && forall i :: 0 <= i < |l| ==> l[i] != '\n'
    ensures |b| + c <= |b + l + a| && LineEnd(b + l + a, |b| + c) == |b| + |l|
    decreases |l| - c
  {
    var t := b + l + a;
    if c < |l| {
      FindEnd(b, l, a, c + 1);
      assert t[|b| + c] == l[c];
    } else if a != "" {
      assert t[|b| + |l|] == a[0];
    }
  }

  /** The cursor's line in the flat text is the cursor's row. */
  lemma LineOfRow(d: Doc, r: nat, c: nat)
    requires Valid(d) && r < |d.lines| && c <= |d.lines[r]|
    ensures var t, b := Text(d.lines), |Before(d.lines[..r])|;
            b + c <= |t| && LineStart(t, b + c) == b && LineEnd(t, b + c) == b + |d.lines[r]|
  {
    var b, l, a := Before(d.lines[..r]), d.lines[r], After(d.lines[r + 1..]);
    assert LineOk(l);
    TextAround(d.lines, r);
    BeforeEnd(d.lines[..r]);
    AfterStart(d.lines[r + 1..]);
    assert b == "" || b[|b| - 1] == '\n';
    assert a == "" || a[0] == '\n';
    FindStart(b, l, a, c);
    FindEnd(b, l, a, c);
  }

  /** Consecutive rows are one newline apart. */
  lemma RowDistance(ls: seq<Line>, r: nat)
    requires r + 1 < |ls|
    ensures |Before(ls[..r + 1])| == |Before(ls[..r])| + |ls[r]| + 1
    ensures |Before(ls[..r])| + |ls[r]| < |Text(ls)| && Text(ls)[|Before(ls[..r])| + |ls[r]|] == '\n'
  {
    assert ls[..r + 1][..r] == ls[..r];
    TextAround(ls, r);
    AfterStart(ls[r + 1..]);
  }

  /** The last row ends the text, the first one starts it. */
  lemma RowEnds(ls: seq<Line>, r: nat)
    requires r < |ls|
    ensures r + 1 == |ls| ==> |Before(ls[..r])| + |ls[r]| == |Text(ls)|
    ensures r == 0 <==> |Before(ls[..r])| == 0
  {
    TextAround(ls, r);
    BeforeEnd(ls[..r]);
  }

  lemma {:induction false} CountAppend(s: string, t: string)
    ensures LineCount(s + t) == LineCount(s) + LineCount(t) - 1
  {
    if t == [] {
      assert s + t == s;
    } else {
      CountAppend(s, t[..|t| - 1]);
      assert (s + t)[..|s + t| - 1] == s + t[..|t| - 1];
    }
  }

  lemma {:induction false} CountLine(l: Line)
    requires forall i :: 0 <= i < |l| ==> l[i] != '\n'
    ensures LineCount(l) == 1
  {
    if l != [] {
      CountLine(l[..|l| - 1]);
    }
  }

  lemma {:induction false} CountAfter(ls: seq<Line>)
    requires forall i :: 0 <= i < |ls| ==> LineOk(ls[i])
    ensures LineCount(After(ls)) == |ls| + 1
  {
    if ls != [] {
      assert LineOk(ls[0]);
      CountAfter(ls[1..]);
      CountLine(ls[0]);
      assert "\n"[..0] == "";
      assert LineCount("\n") == 2;
      CountAppend("\n", ls[0]);
      CountAppend("\n" + ls[0], After(ls[1..]));
    }
  }

  /** The flat text has as many lines as the document has rows. */
  lemma CountRows(d: Doc)
    requires Valid(d)
    ensures LineCount(Text(d.lines)) == |d.lines|
  {
    assert LineOk(d.lines[0]);
    CountLine(d.lines[0]);
    CountAfter(d.lines[1..]);
    CountAppend(d.lines[0], After(d.lines[1..]));
  }

  // ---- each key on lines is that key on flat text

  /** Replacing one row replaces its stretch of the text. */
  lemma ReplaceRow(ls: seq<Line>, r: nat, l: Line)
    requires r < |ls|
    ensures Text(ls[r := l]) == Before(ls[..r]) + l + After(ls[r + 1..])
  {
    var ls' := ls[r := l];
    TextAround(ls', r);
    assert ls'[..r] == ls[..r] && ls'[r + 1..] == ls[r + 1..];
  }

  /** The text splits at the cursor's row, and the cursor's line is found again in the flat text. */
  lemma ViewOf(d: Doc)
    requires Valid(d)
    ensures var f, b, l, a := Flatten(d), Before(d.lines[..d.row]), Cur(d), After(d.lines[d.row + 1..]);
            && f == Flat(b + l + a, |b| + d.col) && f.off <= |f.text|
            && LineStart(f.text, f.off) == |b| && LineEnd(f.text, f.off) == |b| + |l|
  {
    LineOfRow(d, d.row, d.col);
    TextAround(d.lines, d.row);
  }

  /** A document that differs in the cursor's row only. */
  lemma FlattenReplaced(d: Doc, l: Line, c: nat)
    requires d.row < |d.lines|
    ensures var b, a := Before(d.lines[..d.row]), After(d.lines[d.row + 1..]);
            Flatten(d.(lines := d.lines[d.row := l], col := c)) == Flat(b + l + a, |b| + c)
  {
    ReplaceRow(d.lines, d.row, l);
    assert d.lines[d.row := l][..d.row] == d.lines[..d.row];
  }

  lemma InsertInView(b: string, l: Line, a: string, c: nat, ch: char)
    requires c <= |l|
    ensures FlatInsert(Flat(b + l + a, |b| + c), ch) == Flat(b + (l[..c] + [ch] + l[c..]) + a, |b| + (c + 1))
  {
    SplitView(b, l, a, c);
  }

  lemma SplitView(b: string, l: Line, a: string, c: nat)
    requires c <= |l|
    ensures (b + l + a)[..|b| + c] == b + l[..c] && (b + l + a)[|b| + c..] == l[c..] + a
  {}

  lemma RemoveInView(b: string, l: Line, a: string, c: nat)
    requires c < |l|
    ensures (b + l + a)[|b| + c] == l[c]
    ensures FlatRemove(Flat(b + l + a, |b| + c), |b| + c) == Flat(b + (l[..c] + l[c + 1..]) + a, |b| + c)
  {
    SplitView(b, l, a, c);
    SplitView(b, l, a, c + 1);
  }

  /** Typing into the line l of b + l + a. */
  lemma TypeInView(f: Flat, b: string, l: Line, a: string, c: nat, ch: char)
    requires c <= |l| && f == Flat(b + l + a, |b| + c)
    requires LineStart(f.text, f.off) == |b| && LineEnd(f.text, f.off) == |b| + |l|
    ensures FlatKey(f, Char(ch))
         == if |l| >= MAX_COLS - 1 then f else Flat(b + (l[..c] + [ch] + l[c..]) + a, |b| + (c + 1))
  {
    InsertInView(b, l, a, c, ch);
  }

  lemma InsertRefines(d: Doc, c: char)
    requires Valid(d)
    ensures Flatten(d).off <= |Flatten(d).text|
    ensures Flatten(DoInsert(d, c)) == FlatKey(Flatten(d), Char(c))
  {
    var b, l, a := Before(d.lines[..d.row]), Cur(d), After(d.lines[d.row + 1..]);
    ViewOf(d);
    TypeInView(Flatten(d), b, l, a, d.col, c);
    FlattenReplaced(d, l[..d.col] + [c] + l[d.col..], d.col + 1);
  }

  lemma SplitRowText(ls: seq<Line>, r: nat, c: nat)
    requires r < |ls| && c <= |ls[r]|
    ensures var b, l, a := Before(ls[..r]), ls[r], After(ls[r + 1..]);
            Text(SplitRow(ls, r, c)) == (b + l[..c]) + ['\n'] + (l[c..] + a)
    ensures |Before(SplitRow(ls, r, c)[..r + 1])| == |Before(ls[..r])| + c + 1
  {
    var b, x, y, a := Before(ls[..r]), ls[r][..c], ls[r][c..], After(ls[r + 1..]);
    var s := SplitRow(ls, r, c);
    assert s[..r] == ls[..r] && s[r] == x && s[r + 1..] == [y] + ls[r + 1..];
    TextAround(s, r);
    AfterCons(y, ls[r + 1..]);
    RowDistance(s, r);
    NewlineText(b, x, y, a);
  }

  lemma EnterText(d: Doc)
    requires Valid(d)
    ensures Flatten(d).off <= |Flatten(d).text|
    ensures Flatten(Doc(SplitRow(d.lines, d.row, d.col), d.row + 1, 0)) == FlatInsert(Flatten(d), '\n')
  {
    TextAround(d.lines, d.row);
    SplitRowText(d.lines, d.row, d.col);
    SplitView(Before(d.lines[..d.row]), Cur(d), After(d.lines[d.row + 1..]), d.col);
  }

  lemma NewlineText(b: string, x: string, y: string, a: string)
    ensures b + x + ("\n" + y + a) == (b + x) + ['\n'] + (y + a)
  {}

  lemma EnterRefines(d: Doc)
    requires Valid(d)
    ensures Flatten(d).off <= |Flatten(d).text|
    ensures Flatten(DoEnter(d)) == FlatKey(Flatten(d), Enter)
  {
    CountRows(d);
    EnterText(d);
  }

  lemma AfterCons(l: Line, ls: seq<Line>)
    ensures After([l] + ls) == "\n" + l + After(ls)
  {
    assert ([l] + ls)[1..] == ls;
  }

  /** Joining two rows removes the newline between them. */
  lemma JoinText(ls: seq<Line>, r: nat)
    requires r + 1 < |ls|
    ensures var at := |Before(ls[..r])| + |ls[r]|;
            at < |Text(ls)| && Text(JoinRows(ls, r)) == Text(ls)[..at] + Text(ls)[at + 1..]
    ensures JoinRows(ls, r)[..r] == ls[..r]
  {
    var b, x, y, a := Before(ls[..r]), ls[r], ls[r + 1], After(ls[r + 2..]);
    RowDistance(ls, r);
    TextAround(ls, r);
    assert ls[r + 1..] == [y] + ls[r + 2..];
    AfterCons(y, ls[r + 2..]);
    var js := JoinRows(ls, r);
    assert js[..r] == ls[..r] && js[r] == x + y && js[r + 1..] == ls[r + 2..];
    TextAround(js, r);
    WithoutNewline(b, x, y, a);
  }

  lemma WithoutNewline(b: string, x: string, y: string, a: string)
    ensures var t, at := b + x + ("\n" + y + a), |b| + |x|;
            t[..at] + t[at + 1..] == b + (x + y) + a
  {}

  /** The flat test for a join is the test on the two rows. */
  lemma JoinTest(d: Doc, r: nat)
    requires Valid(d) && r + 1 < |d.lines|
    ensures var t, at := Text(d.lines), |Before(d.lines[..r])| + |d.lines[r]|;
            at < |t| && t[at] == '\n' && JoinedLength(t, at) == |d.lines[r]| + |d.lines[r + 1]|
  {
    RowDistance(d.lines, r);
    LineOfRow(d, r, |d.lines[r]|);
    LineOfRow(d, r + 1, 0);
  }

  lemma NoNewlineAt(d: Doc, c: nat)
    requires Valid(d) && c < |Cur(d)|
    ensures Cur(d)[c] != '\n'
  {
    assert LineOk(Cur(d));
  }

  lemma BackspaceInRow(d: Doc)
    requires Valid(d) && d.col > 0
    ensures Flatten(d).off <= |Flatten(d).text|
    ensures Flatten(DoBackspace(d)) == FlatKey(Flatten(d), Backspace)
  {
    var b, l, a, c := Before(d.lines[..d.row]), Cur(d), After(d.lines[d.row + 1..]), d.col - 1;
    ViewOf(d);
    NoNewlineAt(d, c);
    EraseInView(Flatten(d), b, l, a, c);
    FlattenReplaced(d, l[..c] + l[c + 1..], c);
  }

  /** Erasing from the line l of b + l + a, from either side. */
  lemma EraseInView(f: Flat, b: string, l: Line, a: string, c: nat)
    requires c < |l| && l[c] != '\n' && f.text == b + l + a && (f.off == |b| + c || f.off == |b| + c + 1)
    ensures FlatKey(f, if f.off == |b| + c then Delete else Backspace) == Flat(b + (l[..c] + l[c + 1..]) + a, |b| + c)
  {
    RemoveInView(b, l, a, c);
    FlatErase(f, |b| + c);
  }

  /** Removing an ordinary character, and removing a newline. */
  lemma FlatErase(f: Flat, at: nat)
    requires at < |f.text| && f.text[at] != '\n'
    ensures f.off == at + 1 ==> FlatKey(f, Backspace) == FlatRemove(f, at)
    ensures f.off == at ==> FlatKey(f, Delete) == FlatRemove(f, at)
  {}

  lemma FlatJoin(f: Flat, at: nat, joined: nat)
    requires at < |f.text| && f.text[at] == '\n' && JoinedLength(f.text, at) == joined
    ensures f.off == at + 1 ==> FlatKey(f, Backspace) == if joined < MAX_COLS then FlatRemove(f, at) else f
    ensures f.off == at ==> FlatKey(f, Delete) == if joined < MAX_COLS then FlatRemove(f, at) else f
  {}

  lemma FlattenJoined(d: Doc, r: nat)
    requires r + 1 < |d.lines| && d.row < |d.lines|
    ensures var at := |Before(d.lines[..r])| + |d.lines[r]|;
            at < |Text(d.lines)| && Flatten(Doc(JoinRows(d.lines, r), r, |d.lines[r]|)) == FlatRemove(Flatten(d), at)
  {
    JoinText(d.lines, r);
  }

  /** A join at row r, seen from the newline it removes. */
  lemma JoinAt(d: Doc, r: nat, f: Flat)
    requires Valid(d) && r + 1 < |d.lines| && f == Flatten(d)
    ensures var at := |Before(d.lines[..r])| + |d.lines[r]|;
            && at < |f.text| && f.text[at] == '\n' && JoinedLength(f.text, at) == |d.lines[r]| + |d.lines[r + 1]|
            && |Before(d.lines[..r + 1])| == at + 1
            && Flatten(Doc(JoinRows(d.lines, r), r, |d.lines[r]|)) == FlatRemove(f, at)
  {
    RowDistance(d.lines, r);
    JoinTest(d, r);
    FlattenJoined(d, r);
  }

  lemma BackspaceJoins(d: Doc)
    requires Valid(d) && d.col == 0 && d.row > 0
    ensures Flatten(d).off <= |Flatten(d).text|
    ensures Flatten(DoBackspace(d)) == FlatKey(Flatten(d), Backspace)
  {
    var f, r := Flatten(d), d.row - 1;
    JoinAt(d, r, f);
    FlatJoin(f, |Before(d.lines[..r])| + |d.lines[r]|, |d.lines[r]| + |d.lines[r + 1]|);
  }

  lemma DeleteJoins(d: Doc)
    requires Valid(d) && d.col == |Cur(d)| && d.row + 1 < |d.lines|
    ensures Flatten(d).off <= |Flatten(d).text|
    ensures Flatten(DoDelete(d)) == FlatKey(Flatten(d), Delete)
  {
    var f, at := Flatten(d), |Before(d.lines[..d.row])| + |d.lines[d.row]|;
    JoinAt(d, d.row, f);
    FlatJoin(f, at, |d.lines[d.row]| + |d.lines[d.row + 1]|);
    FlattenDeleted(d, f, at);
  }

  lemma FlattenDeleted(d: Doc, f: Flat, at: nat)
    requires Valid(d) && d.col == |Cur(d)| && d.row + 1 < |d.lines| && f == Flatten(d) && at < |f.text|
    requires Flatten(Doc(JoinRows(d.lines, d.row), d.row, |d.lines[d.row]|)) == FlatRemove(f, at)
    ensures Flatten(DoDelete(d))
         == if |d.lines[d.row]| + |d.lines[d.row + 1]| < MAX_COLS then FlatRemove(f, at) else f
  {}

  lemma DeleteInRow(d: Doc)
    requires Valid(d) && d.col < |Cur(d)|
    ensures Flatten(d).off <= |Flatten(d).text|
    ensures Flatten(DoDelete(d)) == FlatKey(Flatten(d), Delete)
  {
    var b, l, a := Before(d.lines[..d.row]), Cur(d), After(d.lines[d.row + 1..]);
    ViewOf(d);
    NoNewlineAt(d, d.col);
    EraseInView(Flatten(d), b, l, a, d.col);
    FlattenReplaced(d, l[..d.col] + l[d.col + 1..], d.col);
  }

  lemma BackspaceRefines(d: Doc)
    requires Valid(d)
    ensures Flatten(d).off <= |Flatten(d).text|
    ensures Flatten(DoBackspace(d)) == FlatKey(Flatten(d), Backspace)
  {
    if d.col > 0 {
      BackspaceInRow(d);
    } else if d.row > 0 {
      BackspaceJoins(d);
    } else {
      assert d.lines[..0] == [];
    }
  }

  lemma DeleteRefines(d: Doc)
    requires Valid(d)
    ensures Flatten(d).off <= |Flatten(d).text|
    ensures Flatten(DoDelete(d)) == FlatKey(Flatten(d), Delete)
  {
    if d.col < |Cur(d)| {
      DeleteInRow(d);
    } else if d.row + 1 < |d.lines| {
      DeleteJoins(d);
    } else {
      RowEnds(d.lines, d.row);
    }
  }

  /** Where the neighbouring rows start and end in the flat text. */
  lemma RowAbove(d: Doc)
    requires Valid(d) && d.row > 0
    ensures var t, s, p := Text(d.lines), |Before(d.lines[..d.row])|, |Before(d.lines[..d.row - 1])|;
            s <= |t| && s == p + |d.lines[d.row - 1]| + 1 && LineStart(t, s - 1) == p
  {
    RowDistance(d.lines, d.row - 1);
    LineOfRow(d, d.row - 1, |d.lines[d.row - 1]|);
  }

  lemma RowBelow(d: Doc)
    requires Valid(d) && d.row + 1 < |d.lines|
    ensures var t, e := Text(d.lines), |Before(d.lines[..d.row])| + |Cur(d)|;
            e < |t| && |Before(d.lines[..d.row + 1])| == e + 1 && LineEnd(t, e + 1) == e + 1 + |d.lines[d.row + 1]|
  {
    RowDistance(d.lines, d.row);
    LineOfRow(d, d.row + 1, 0);
  }

  lemma FlatUp(f: Flat, s: nat, p: nat)
    requires f.off <= |f.text| && s == LineStart(f.text, f.off) && (s > 0 ==> p == LineStart(f.text, s - 1))
    ensures FlatKey(f, Up) == if s == 0 then f else Flat(f.text, p + Min(f.off - s, s - 1 - p))
  {}

  lemma FlatDown(f: Flat, s: nat, e: nat, e2: nat)
    requires f.off <= |f.text| && s == LineStart(f.text, f.off) && e == LineEnd(f.text, f.off)
    requires e < |f.text| ==> e2 == LineEnd(f.text, e + 1)
    ensures FlatKey(f, Down) == if e == |f.text| then f else Flat(f.text, e + 1 + Min(f.off - s, e2 - (e + 1)))
  {}

  lemma UpRefines(d: Doc)
    requires Valid(d)
    ensures Flatten(d).off <= |Flatten(d).text|
    ensures Flatten(DoMove(d, Up)) == FlatKey(Flatten(d), Up)
  {
    LineOfRow(d, d.row, d.col);
    RowEnds(d.lines, d.row);
    var s := |Before(d.lines[..d.row])|;
    if d.row > 0 {
      RowAbove(d);
      FlatUp(Flatten(d), s, |Before(d.lines[..d.row - 1])|);
    } else {
      FlatUp(Flatten(d), s, 0);
    }
  }

  lemma DownInside(d: Doc)
    requires Valid(d) && d.row + 1 < |d.lines|
    ensures Flatten(d).off <= |Flatten(d).text|
    ensures Flatten(DoMove(d, Down)) == FlatKey(Flatten(d), Down)
  {
    var f, s := Flatten(d), |Before(d.lines[..d.row])|;
    var e := s + |d.lines[d.row]|;
    CursorLine(d, f, s, e);
    FlatDown(f, s, e, e + 1 + |d.lines[d.row + 1]|);
    FlattenBelow(d);
  }

  /** The ends of the cursor's line and of the line below it. */
  lemma CursorLine(d: Doc, f: Flat, s: nat, e: nat)
    requires Valid(d) && d.row + 1 < |d.lines| && f == Flatten(d)
    requires s == |Before(d.lines[..d.row])| && e == s + |d.lines[d.row]|
    ensures f.off == s + d.col <= |f.text| && s == LineStart(f.text, f.off) && e == LineEnd(f.text, f.off) < |f.text|
    ensures |Before(d.lines[..d.row + 1])| == e + 1 && LineEnd(f.text, e + 1) == e + 1 + |d.lines[d.row + 1]|
  {
    LineOfRow(d, d.row, d.col);
    RowBelow(d);
  }

  lemma FlattenBelow(d: Doc)
    requires Valid(d) && d.row + 1 < |d.lines|
    ensures Flatten(DoMove(d, Down))
         == Flat(Text(d.lines), |Before(d.lines[..d.row + 1])| + Min(d.col, |d.lines[d.row + 1]|))
  {}

  lemma DownRefines(d: Doc)
    requires Valid(d)
    ensures Flatten(d).off <= |Flatten(d).text|
    ensures Flatten(DoMove(d, Down)) == FlatKey(Flatten(d), Down)
  {
    if d.row + 1 < |d.lines| {
      DownInside(d);
    } else {
      LineOfRow(d, d.row, d.col);
      RowEnds(d.lines, d.row);
    }
  }

  lemma LeftRefines(d: Doc)
    requires Valid(d)
    ensures Flatten(d).off <= |Flatten(d).text|
    ensures Flatten(DoMove(d, Left)) == FlatKey(Flatten(d), Left)
  {
    LineOfRow(d, d.row, d.col);
    RowEnds(d.lines, d.row);
    if d.row > 0 {
      RowDistance(d.lines, d.row - 1);
    }
  }

  lemma RightRefines(d: Doc)
    requires Valid(d)
    ensures Flatten(d).off <= |Flatten(d).text|
    ensures Flatten(DoMove(d, Right)) == FlatKey(Flatten(d), Right)
  {
    LineOfRow(d, d.row, d.col);
    RowEnds(d.lines, d.row);
    if d.row + 1 < |d.lines| {
      RowDistance(d.lines, d.row);
    }
  }

  lemma InRowRefines(d: Doc, k: Key)
    requires Valid(d) && (k.Home? || k.End? || k.Ignored?)
    ensures Flatten(d).off <= |Flatten(d).text|
    ensures Flatten(DoMove(d, k)) == FlatKey(Flatten(d), k)
  {
    LineOfRow(d, d.row, d.col);
  }

  /** Refinement: every key acts on the flat text exactly as the flat editor says. */
  lemma KeyRefines(d: Doc, k: Key)
    requires Valid(d)
    ensures Flatten(d).off <= |Flatten(d).text|
    ensures Flatten(DoKey(d, k)) == FlatKey(Flatten(d), k)
  {
    ViewOf(d);
    match k {
      case Char(c) => InsertRefines(d, c);
      case Enter => EnterRefines(d);
      case Backspace => BackspaceRefines(d);
      case Delete => DeleteRefines(d);
      case Up => UpRefines(d);
      case Down => DownRefines(d);
      case Left => LeftRefines(d);
      case Right => RightRefines(d);
      case _ => InRowRefines(d, k);
    }
  }

  // ---- whole sessions

  function DoKeys(d: Doc, keys: seq<Key>): (r: Doc)
    requires Valid(d) && forall i :: 0 <= i < |keys| ==> KeyOk(keys[i])
    ensures Valid(r)
    decreases |keys|
  {
    if keys == [] then d
    else
      KeyKeepsValid(d, keys[0]);
      DoKeys(DoKey(d, keys[0]), keys[1..])
  }

  ghost predicate FlatRun(f: Flat, keys: seq<Key>, r: Flat)
    decreases |keys|
  {
    if keys == [] then f == r
    else f.off <= |f.text| && FlatRun(FlatKey(f, keys[0]), keys[1..], r)
  }

  /** A whole session on lines is the same session on flat text. */
  lemma {:induction false} SessionRefines(d: Doc, keys: seq<Key>)
    requires Valid(d) && forall i :: 0 <= i < |keys| ==> KeyOk(keys[i])
    ensures FlatRun(Flatten(d), keys, Flatten(DoKeys(d, keys)))
    decreases |keys|
  {
    if keys != [] {
      KeyRefines(d, keys[0]);
      KeyKeepsValid(d, keys[0]);
      SessionRefines(DoKey(d, keys[0]), keys[1..]);
    }
  }

  // ---- undoing

  /** Nothing to the left, or a join that would overfill the line above. */
  predicate NothingToErase(d: Doc)
    requires Valid(d)
  {
    d.col == 0 && (d.row == 0 || |d.lines[d.row - 1]| + |Cur(d)| >= MAX_COLS)
  }

  /** Backspace after a typed character restores all, unless the line was full and there is something to erase. */
  lemma InsertThenBackspace(d: Doc, c: char)
    requires Valid(d) && KeyOk(Char(c))
    ensures Valid(DoInsert(d, c))
    ensures DoBackspace(DoInsert(d, c)) == d <==> |Cur(d)| < MAX_COLS - 1 || NothingToErase(d)
  {
    KeyKeepsValid(d, Char(c));
    var l := Cur(d);
    if |l| < MAX_COLS - 1 {
      var l' := l[..d.col] + [c] + l[d.col..];
      assert l'[..d.col] + l'[d.col + 1..] == l;
      assert d.lines[d.row := l'][d.row := l] == d.lines;
    }
  }

  /** Backspace after a line break restores everything, unless the page was full and there is something to erase. */
  lemma EnterThenBackspace(d: Doc)
    requires Valid(d)
    ensures Valid(DoEnter(d))
    ensures DoBackspace(DoEnter(d)) == d <==> |d.lines| < MAX_LINES - 1 || NothingToErase(d)
  {
    KeyKeepsValid(d, Enter);
    if |d.lines| < MAX_LINES - 1 {
      var r := DoEnter(d);
      var l := Cur(d);
      assert r.lines[d.row] == l[..d.col] && r.lines[d.row + 1] == l[d.col..];
      assert l[..d.col] + l[d.col..] == l;
      assert r.lines[..d.row] == d.lines[..d.row] && r.lines[d.row + 2..] == d.lines[d.row + 1..];
      assert JoinRows(r.lines, d.row) == d.lines;
    }
  }
}
