/** The console shows a window on an endless terminal, and for plain text that terminal is the eagerly
    wrapped layout of everything written. */
module ConsoleLayout {
  import opened ConsoleModel

  /** An endless terminal: all completed lines, the line under the cursor, and the attributes of its
      cells that nothing has been written to. */
  datatype Terminal = Terminal(done: seq<Line>, cur: Line, fill: nat, attrs: nat, esc: seq<char>)

  ghost predicate TerminalOk(size: Size, t: Terminal) {
    && size.Valid() && |t.cur| < size.columns
    && (forall i :: 0 <= i < |t.done| ==> |t.done[i]| == size.columns)
    && (|t.done| < size.rows ==> t.fill == INITIAL_ATTRS)
  }

  /** The line under the cursor has not scrolled into view yet. */
  predicate Pending(size: Size, t: Terminal) {
    |t.cur| == 0 && |t.done| >= size.rows
  }

  function CurrentLine(size: Size, t: Terminal): Line
    requires |t.cur| <= size.columns
  {
    t.cur + Blank(size.columns - |t.cur|, t.fill)
  }

  function Shown(size: Size, t: Terminal): seq<Line>
    requires |t.cur| <= size.columns
  {
    if Pending(size, t) then t.done else t.done + [CurrentLine(size, t)]
  }

  /** The last `rows` of some lines, blank below when there are fewer. */
  function Window(size: Size, lines: seq<Line>): seq<Line> {
    if |lines| >= size.rows then lines[|lines| - size.rows..]
    else lines + seq(size.rows - |lines|, _ => Blank(size.columns, INITIAL_ATTRS))
  }

  ghost predicate Shows(size: Size, s: Screen, t: Terminal) {
    && TerminalOk(size, t) && ScreenOk(size, s)
    && s.lines == Window(size, Shown(size, t))
    && s.column == |t.cur|
    && s.row == (if Pending(size, t) then size.rows else if |t.done| < size.rows then |t.done| else size.rows - 1)
    && s.attrs == t.attrs && s.esc == t.esc
  }

  // ----- the terminal's side of each character

  function EndLine(t: Terminal, line: Line): Terminal {
    t.(done := t.done + [line], cur := [], fill := INITIAL_ATTRS)
  }

  function TerminalPlain(size: Size, t0: Terminal, c: char): Terminal
    requires |t0.cur| < size.columns
  {
    var t := if Pending(size, t0) then t0.(fill := t0.attrs) else t0;
    if c == '\n' then EndLine(t, CurrentLine(size, t))
    else
      var cur := t.cur + [Cell(c, t.attrs)];
      if |cur| == size.columns then EndLine(t, cur) else t.(cur := cur)
  }

  function TerminalControl(size: Size, t: Terminal, esc: seq<char>, c: char): Terminal
    requires |t.cur| < size.columns
  {
    if c == 'K' then
      if Pending(size, t) then t else EndLine(t, t.cur + Blank(size.columns - |t.cur|, t.attrs))
    else if c == 'm' then t.(attrs := SgrFrom(t.attrs, esc, 2))
    else t
  }

  function TerminalPutch(size: Size, t: Terminal, c: char): (r: Terminal)
    requires |t.cur| < size.columns
    ensures |r.cur| < size.columns
  {
    if c == ESC then t.(esc := [ESC])
    else if |t.esc| > 0 then
      if |t.esc| == 1 then t.(esc := if c == '[' then t.esc + [c] else [])
      else if IsFinal(c) then TerminalControl(size, t, t.esc + [c], c).(esc := [])
      else t.(esc := t.esc + [c])
    else TerminalPlain(size, t, c)
  }

  function TerminalWrite(size: Size, t: Terminal, text: seq<char>): (r: Terminal)
    requires |t.cur| < size.columns
    ensures |r.cur| < size.columns
  {
    if |text| == 0 then t
    else TerminalPutch(size, TerminalWrite(size, t, text[..|text| - 1]), text[|text| - 1])
  }

  function Fresh(): Terminal {
    Terminal([], [], INITIAL_ATTRS, INITIAL_ATTRS, [])
  }

  // ----- the screen follows the terminal

  /** Scrolling brings the pending line into view. */
  lemma ScrollShows(size: Size, s: Screen, t: Terminal)
    requires Shows(size, s, t) && Pending(size, t)
    ensures var t' := t.(fill := t.attrs);
            Scrolled(size, s).lines == Window(size, t.done + [CurrentLine(size, t')])
  {
    var n := |t.done|;
    var line := CurrentLine(size, t.(fill := t.attrs));
    assert line == Blank(size.columns, s.attrs);
    assert (t.done + [line])[n + 1 - size.rows..] == t.done[n - size.rows..][1..] + [line];
  }

  /** The row that the cursor line has in the window, and what changing that line does. */
  lemma WindowUpdate(size: Size, done: seq<Line>, old_: Line, new_: Line)
    requires size.Valid()
    ensures var row := if |done| < size.rows then |done| else size.rows - 1;
            var w := Window(size, done + [old_]);
            |w| == size.rows && w[row] == old_ && w[row := new_] == Window(size, done + [new_])
  {
    var row := if |done| < size.rows then |done| else size.rows - 1;
    var w, w' := Window(size, done + [old_]), Window(size, done + [new_]);
    if |done| + 1 >= size.rows {
      var k := |done| + 1 - size.rows;
      assert forall i :: 0 <= i < size.rows ==> w[i] == (done + [old_])[k + i] && w'[i] == (done + [new_])[k + i];
    }
    assert forall i :: 0 <= i < size.rows && i != row ==> w[i] == w'[i];
    assert w[row := new_] == w';
  }

  /** Ending the line under the cursor only moves the cursor: the line below it shows as blank, or is
      pending. */
  lemma EndLineShows(size: Size, lines: seq<Line>, t: Terminal, line: Line)
    requires TerminalOk(size, t) && |line| == size.columns
    requires lines == Window(size, t.done + [line])
    ensures var t' := EndLine(t, line); TerminalOk(size, t') && lines == Window(size, Shown(size, t'))
  {
    var t' := EndLine(t, line);
    if |t'.done| < size.rows {
      var blank := Blank(size.columns, INITIAL_ATTRS);
      assert CurrentLine(size, t') == blank;
      var k := size.rows - |t'.done|;
      assert seq(k, _ => blank) == [blank] + seq(k - 1, _ => blank);
      assert Window(size, t'.done + [blank]) == t'.done + ([blank] + seq(k - 1, _ => blank));
    }
  }

  /** The state in which a plain character finds the cursor line in view. */
  ghost predicate InView(size: Size, s: Screen, t: Terminal) {
    && TerminalOk(size, t) && ScreenOk(size, s)
    && s.lines == Window(size, t.done + [CurrentLine(size, t)])
    && s.column == |t.cur| && s.row == (if |t.done| < size.rows then |t.done| else size.rows - 1)
    && s.attrs == t.attrs && s.esc == t.esc
  }

  lemma MaterialisedInView(size: Size, s: Screen, t: Terminal)
    requires Shows(size, s, t)
    ensures InView(size, Materialised(size, s), if Pending(size, t) then t.(fill := t.attrs) else t)
  {
    hide Window;
    if Pending(size, t) {
      ScrollShows(size, s, t);
    }
  }

  lemma NewlineShows(size: Size, s: Screen, t: Terminal)
    requires InView(size, s, t)
    ensures Shows(size, s.(column := 0, row := s.row + 1), EndLine(t, CurrentLine(size, t)))
  {
    hide Window;
    EndLineShows(size, s.lines, t, CurrentLine(size, t));
  }

  /** Writing the cell under the cursor extends the line under the cursor. */
  lemma CellShows(size: Size, s: Screen, t: Terminal, cell: Cell)
    requires InView(size, s, t)
    ensures var cur := t.cur + [cell];
            var lines := s.lines[s.row := s.lines[s.row][s.column := cell]];
            && |lines[s.row]| == size.columns
            && lines == Window(size, t.done + [CurrentLine(size, t.(cur := cur))])
  {
    hide Window;
    var line := CurrentLine(size, t);
    WindowUpdate(size, t.done, line, line[s.column := cell]);
    assert line[s.column := cell] == CurrentLine(size, t.(cur := t.cur + [cell]));
  }

  lemma CharacterShows(size: Size, s: Screen, t: Terminal, cell: Cell)
    requires InView(size, s, t)
    ensures var cur := t.cur + [cell];
            var s' := s.(lines := s.lines[s.row := s.lines[s.row][s.column := cell]]);
            if s.column + 1 == size.columns then Shows(size, s'.(column := 0, row := s.row + 1), EndLine(t, cur))
            else Shows(size, s'.(column := s.column + 1), t.(cur := cur))
  {
    hide Window;
    CellShows(size, s, t, cell);
    var cur := t.cur + [cell];
    if |cur| == size.columns {
      assert CurrentLine(size, t.(cur := cur)) == cur;
      EndLineShows(size, s.lines[s.row := s.lines[s.row][s.column := cell]], t, cur);
    }
  }

  lemma PlainShows(size: Size, s0: Screen, t0: Terminal, c: char)
    requires Shows(size, s0, t0)
    ensures Shows(size, Plain(size, s0, c), TerminalPlain(size, t0, c))
  {
    hide Window, Blank, CurrentLine, Scrolled;
    var t := if Pending(size, t0) then t0.(fill := t0.attrs) else t0;
    var s := Materialised(size, s0);
    MaterialisedInView(size, s0, t0);
    assert s.column == |t.cur| && s.attrs == t.attrs;
    hide Materialised, Shows, InView;
    if c == '\n' {
      NewlineShows(size, s, t);
    } else {
      CharacterShows(size, s, t, Cell(c, s.attrs));
    }
  }

  lemma ClearShows(size: Size, s: Screen, t: Terminal)
    requires Shows(size, s, t) && !Pending(size, t)
    ensures Shows(size, ClearToEol(size, s), EndLine(t, t.cur + Blank(size.columns - |t.cur|, t.attrs)))
  {
    hide Window;
    var line := CurrentLine(size, t);
    var row := if |t.done| < size.rows then |t.done| else size.rows - 1;
    var line' := t.cur + Blank(size.columns - |t.cur|, t.attrs);
    WindowUpdate(size, t.done, line, line');
    assert line[..s.column] == t.cur;
    EndLineShows(size, s.lines[row := line'], t, line');
  }

  /** Every character, escape sequences included, keeps the screen a window on the terminal. */
  lemma PutchShows(size: Size, s: Screen, t: Terminal, c: char)
    requires Shows(size, s, t)
    ensures Shows(size, Putch(size, s, c), TerminalPutch(size, t, c))
  {
    hide Window, Plain, TerminalPlain, ClearToEol;
    if c != ESC && |s.esc| == 0 {
      PlainShows(size, s, t, c);
    } else if c == 'K' && |s.esc| > 1 && !Pending(size, t) {
      ClearShows(size, s, t);
    } else if c == 'K' && |s.esc| > 1 {
      PendingClear(size, s, t);
    }
  }

  lemma PendingClear(size: Size, s: Screen, t: Terminal)
    requires Shows(size, s, t) && Pending(size, t)
    ensures ClearToEol(size, s) == s
  {
  }

  lemma FreshShows(size: Size)
    requires size.Valid()
    ensures Shows(size, Initial(size), Fresh())
  {
    var blank := Blank(size.columns, INITIAL_ATTRS);
    assert CurrentLine(size, Fresh()) == blank;
    assert seq(size.rows, _ => blank) == [blank] + seq(size.rows - 1, _ => blank);
  }

  /** For every byte sequence written from initialisation on, the screen is the window on the terminal
      that has received the same bytes. */
  lemma {:induction false} WriteShows(size: Size, text: seq<char>)
    requires size.Valid()
    ensures ScreenOk(size, Initial(size))
    ensures Shows(size, Write(size, Initial(size), text), TerminalWrite(size, Fresh(), text))
    decreases |text|
  {
    hide Shows, Putch, TerminalPutch;
    InitialOk(size);
    if |text| == 0 {
      FreshShows(size);
    } else {
      WriteShows(size, text[..|text| - 1]);
      var before := text[..|text| - 1];
      PutchShows(size, Write(size, Initial(size), before), TerminalWrite(size, Fresh(), before), text[|text| - 1]);
    }
  }

  // ----- the layout of a plain text

  /** A paragraph cut into lines; a line is left as soon as it is full. */
  function Wrap(columns: nat, p: seq<char>): (r: seq<seq<char>>)
    requires 1 <= columns
    ensures |r| >= 1 && |r[|r| - 1]| < columns
    decreases |p|
  {
    if |p| < columns then [p] else [p[..columns]] + Wrap(columns, p[columns..])
  }

  function WrapAll(columns: nat, ps: seq<seq<char>>): (r: seq<seq<char>>)
    requires 1 <= columns
    ensures |ps| > 0 ==> |r| >= 1 && |r[|r| - 1]| < columns
  {
    if |ps| == 0 then [] else WrapAll(columns, ps[..|ps| - 1]) + Wrap(columns, ps[|ps| - 1])
  }

  /** All lines of a text; the last one is the line under the cursor. */
  function Layout(columns: nat, text: seq<char>): (r: seq<seq<char>>)
    requires 1 <= columns
    ensures |r| >= 1 && |r[|r| - 1]| < columns
  {
    WrapAll(columns, Split(text, '\n'))
  }

  function Cells(s: seq<char>): (l: Line)
    ensures |l| == |s|
  {
    seq(|s|, i requires 0 <= i < |s| => Cell(s[i], INITIAL_ATTRS))
  }

  function Padded(columns: nat, s: seq<char>): Line {
    if |s| <= columns then Cells(s) + Blank(columns - |s|, INITIAL_ATTRS) else Cells(s)
  }

  function PaddedLines(columns: nat, lines: seq<seq<char>>): (r: seq<Line>)
    ensures |r| == |lines|
  {
    seq(|lines|, i requires 0 <= i < |lines| => Padded(columns, lines[i]))
  }

  /** A character behind the last piece. */
  function AppendLast(pieces: seq<seq<char>>, c: char): (r: seq<seq<char>>)
    requires |pieces| >= 1
    ensures |r| == |pieces|
  {
    pieces[..|pieces| - 1] + [pieces[|pieces| - 1] + [c]]
  }

  lemma AppendConsFirst(pieces: seq<seq<char>>, d: char, c: char)
    requires |pieces| >= 1
    ensures AppendLast(ConsFirst(d, pieces), c) == ConsFirst(d, AppendLast(pieces, c))
  {
    var l, r := AppendLast(ConsFirst(d, pieces), c), ConsFirst(d, AppendLast(pieces, c));
    assert [d] + pieces[0] + [c] == [d] + (pieces[0] + [c]);
    forall i | 0 <= i < |pieces| ensures l[i] == r[i] {
    }
  }

  lemma AppendBehind(pieces: seq<seq<char>>, c: char)
    requires |pieces| >= 1
    ensures AppendLast([[]] + pieces, c) == [[]] + AppendLast(pieces, c)
  {
  }

  lemma {:induction false} SplitAppend(s: seq<char>, sep: char, c: char)
    ensures Split(s + [c], sep) == if c == sep then Split(s, sep) + [[]] else AppendLast(Split(s, sep), c)
    decreases |s|
  {
    if |s| == 0 {
      assert s + [c] == [c];
      assert [c][1..] == [];
      assert Split([], sep) == [[]];
      assert [c] + [] == [c];
    } else {
      hide AppendLast, ConsFirst;
      var rest := Split(s[1..], sep);
      SplitAppend(s[1..], sep, c);
      assert (s + [c])[1..] == s[1..] + [c];
      assert (s + [c])[0] == s[0];
      AppendConsFirst(rest, s[0], c);
      AppendBehind(rest, c);
      ConsFirstBehind(rest, s[0]);
    }
  }

  lemma ConsFirstBehind(pieces: seq<seq<char>>, d: char)
    requires |pieces| >= 1
    ensures ConsFirst(d, pieces + [[]]) == ConsFirst(d, pieces) + [[]]
    ensures [[]] + (pieces + [[]]) == ([[]] + pieces) + [[]]
  {
  }

  /** What one more character does to wrapped lines: it extends the last one, and a full line is
      followed by an empty one. */
  function Extended(columns: nat, lines: seq<seq<char>>, c: char): seq<seq<char>>
    requires |lines| >= 1
  {
    var n := |lines| - 1;
    lines[..n] + if |lines[n]| + 1 == columns then [lines[n] + [c], []] else [lines[n] + [c]]
  }

  lemma ExtendedBehind(columns: nat, before: seq<seq<char>>, lines: seq<seq<char>>, c: char)
    requires |lines| >= 1
    ensures Extended(columns, before + lines, c) == before + Extended(columns, lines, c)
  {
    assert (before + lines)[..|before + lines| - 1] == before + lines[..|lines| - 1];
  }

  lemma {:induction false} WrapAppend(columns: nat, p: seq<char>, c: char)
    requires 1 <= columns
    ensures Wrap(columns, p + [c]) == Extended(columns, Wrap(columns, p), c)
    decreases |p|
  {
    if |p| >= columns {
      hide Extended;
      WrapAppend(columns, p[columns..], c);
      assert (p + [c])[..columns] == p[..columns];
      assert (p + [c])[columns..] == p[columns..] + [c];
      ExtendedBehind(columns, [p[..columns]], Wrap(columns, p[columns..]), c);
    } else if |p| + 1 == columns {
      assert (p + [c])[..columns] == p + [c];
      assert (p + [c])[columns..] == [];
      assert Wrap(columns, []) == [[]];
    }
  }

  lemma WrapAllSnoc(columns: nat, ps: seq<seq<char>>, p: seq<char>)
    requires 1 <= columns
    ensures WrapAll(columns, ps + [p]) == WrapAll(columns, ps) + Wrap(columns, p)
  {
    assert (ps + [p])[..|ps|] == ps;
  }

  lemma LayoutAppend(columns: nat, text: seq<char>, c: char)
    requires 1 <= columns
    ensures Layout(columns, text + [c]) ==
              if c == '\n' then Layout(columns, text) + [[]] else Extended(columns, Layout(columns, text), c)
  {
    hide Wrap, Split, WrapAll, Extended;
    SplitAppend(text, '\n', c);
    var r := Split(text, '\n');
    var before, last := r[..|r| - 1], r[|r| - 1];
    assert r == before + [last];
    if c == '\n' {
      WrapAllSnoc(columns, r, []);
      WrapNothing(columns);
    } else {
      WrapAllSnoc(columns, before, last);
      WrapAllSnoc(columns, before, last + [c]);
      WrapAppend(columns, last, c);
      ExtendedBehind(columns, WrapAll(columns, before), Wrap(columns, last), c);
    }
  }

  lemma WrapNothing(columns: nat)
    requires 1 <= columns
    ensures Wrap(columns, []) == [[]]
  {
  }

  ghost predicate NoEscape(text: seq<char>) {
    forall i :: 0 <= i < |text| ==> text[i] != ESC
  }

  ghost predicate IsLayout(size: Size, t: Terminal, lines: seq<seq<char>>)
    requires |lines| >= 1
  {
    && t.done == PaddedLines(size.columns, lines[..|lines| - 1])
    && t.cur == Cells(lines[|lines| - 1])
    && t.fill == INITIAL_ATTRS && t.attrs == INITIAL_ATTRS && t.esc == []
  }

  lemma PlainLayout(size: Size, t: Terminal, lines: seq<seq<char>>, c: char)
    requires size.Valid() && |lines| >= 1 && |lines[|lines| - 1]| < size.columns && IsLayout(size, t, lines)
    ensures IsLayout(size, TerminalPlain(size, t, c),
                     if c == '\n' then lines + [[]] else Extended(size.columns, lines, c))
  {
    var n := |lines| - 1;
    var last := lines[n];
    var t' := TerminalPlain(size, t, c);
    var lines' := if c == '\n' then lines + [[]] else Extended(size.columns, lines, c);
    assert Cells([]) == [];
    if c == '\n' {
      assert lines'[..|lines'| - 1] == lines;
      assert PaddedLines(size.columns, lines) == PaddedLines(size.columns, lines[..n]) + [Padded(size.columns, last)];
    } else {
      assert Cells(last + [c]) == Cells(last) + [Cell(c, INITIAL_ATTRS)];
      if |last| + 1 == size.columns {
        assert lines'[..|lines'| - 1] == lines[..n] + [last + [c]];
        assert Padded(size.columns, last + [c]) == Cells(last + [c]);
        assert PaddedLines(size.columns, lines[..n] + [last + [c]])
            == PaddedLines(size.columns, lines[..n]) + [Padded(size.columns, last + [c])];
      } else {
        assert lines'[..|lines'| - 1] == lines[..n];
      }
    }
  }

  lemma {:induction false} TerminalIsLayout(size: Size, text: seq<char>)
    requires size.Valid() && NoEscape(text)
    ensures IsLayout(size, TerminalWrite(size, Fresh(), text), Layout(size.columns, text))
    decreases |text|
  {
    hide IsLayout, TerminalPlain, TerminalPutch, Layout, Extended;
    if |text| == 0 {
      EmptyLayout(size);
      assert text == [];
    } else {
      var before, c := text[..|text| - 1], text[|text| - 1];
      assert text == before + [c];
      var t, lines := TerminalWrite(size, Fresh(), before), Layout(size.columns, before);
      TerminalIsLayout(size, before);
      LayoutAppend(size.columns, before, c);
      NotInEscape(size, t, lines);
      PlainLayout(size, t, lines, c);
      assert TerminalWrite(size, Fresh(), text) == TerminalPutch(size, t, c);
      PutchPlain(size, t, c);
    }
  }

  lemma PutchPlain(size: Size, t: Terminal, c: char)
    requires |t.cur| < size.columns && t.esc == [] && c != ESC
    ensures TerminalPutch(size, t, c) == TerminalPlain(size, t, c)
  {
  }

  lemma NotInEscape(size: Size, t: Terminal, lines: seq<seq<char>>)
    requires |lines| >= 1 && IsLayout(size, t, lines)
    ensures t.esc == []
  {
  }

  lemma EmptyLayout(size: Size)
    requires size.Valid()
    ensures IsLayout(size, Fresh(), Layout(size.columns, []))
  {
    var one: seq<seq<char>> := [[]];
    assert Split([], '\n') == one;
    assert one[..0] == [];
    assert WrapAll(size.columns, one[..0]) == [];
    assert Layout(size.columns, []) == [[]];
  }

  /** After any plain text, however it was split over writes, the screen shows the last `rows` lines of
      its layout; an empty last line is not shown while the scroll for it is pending. */
  lemma ScreenIsLayout(size: Size, text: seq<char>)
    requires size.Valid() && NoEscape(text)
    ensures ScreenOk(size, Initial(size))
    ensures var s, lines := Write(size, Initial(size), text), Layout(size.columns, text);
            var n := |lines| - 1;
            var pending := |lines[n]| == 0 && n >= size.rows;
            && s.lines == Window(size, PaddedLines(size.columns, if pending then lines[..n] else lines))
            && s.column == |lines[n]|
            && s.row == if pending then size.rows else if n < size.rows then n else size.rows - 1
  {
    hide Window;
    WriteShows(size, text);
    TerminalIsLayout(size, text);
    var t, lines := TerminalWrite(size, Fresh(), text), Layout(size.columns, text);
    var n := |lines| - 1;
    assert CurrentLine(size, t) == Padded(size.columns, lines[n]);
    assert PaddedLines(size.columns, lines) == PaddedLines(size.columns, lines[..n]) + [Padded(size.columns, lines[n])];
  }
}
