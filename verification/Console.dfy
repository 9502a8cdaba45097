/** The console driver: a flat cell buffer, scrolled and edited in place. */
module ConsoleDriver {
  import opened Numbers
  import opened ConsoleModel

  // ----- lines in a flat buffer

  function Flat(lines: seq<Line>): seq<Cell> {
    if |lines| == 0 then [] else lines[0] + Flat(lines[1..])
  }

  ghost predicate Rectangular(lines: seq<Line>, columns: nat) {
    forall i :: 0 <= i < |lines| ==> |lines[i]| == columns
  }

  lemma RowFits(r: nat, n: nat, columns: nat)
    requires r < n
    ensures r * columns + columns <= n * columns
    ensures (r + 1) * columns == r * columns + columns
  {
    var d := n - r - 1;
    assert n * columns == r * columns + columns + d * columns;
  }

  lemma {:induction false} FlatLength(lines: seq<Line>, columns: nat)
    requires Rectangular(lines, columns)
    ensures |Flat(lines)| == |lines| * columns
  {
    if |lines| != 0 {
      FlatLength(lines[1..], columns);
      RowFits(|lines| - 1, |lines|, columns);
    }
  }

  lemma FlatCons(line: Line, rest: seq<Line>)
    ensures Flat([line] + rest) == line + Flat(rest)
  {
    assert ([line] + rest)[1..] == rest;
  }

  lemma UpdateBehind(a: seq<Cell>, b: seq<Cell>, k: nat, x: Cell)
    requires k < |b|
    ensures (a + b)[|a| + k := x] == a + b[k := x]
  {
  }

  lemma UpdateBefore(a: seq<Cell>, b: seq<Cell>, k: nat, x: Cell)
    requires k < |a|
    ensures (a + b)[k := x] == a[k := x] + b
  {
  }

  /** Changing one cell of one line. */
  lemma {:induction false} FlatUpdate(lines: seq<Line>, columns: nat, r: nat, from: nat, j: nat, x: Cell)
    requires Rectangular(lines, columns) && r < |lines| && j < columns && StartsLine(from, r, columns)
    ensures from + j < |Flat(lines)|
    ensures Flat(lines[r := lines[r][j := x]]) == Flat(lines)[from + j := x]
    decreases r
  {
    hide Flat, StartsLine;
    var first, rest := lines[0], lines[1..];
    assert lines == [first] + rest;
    FlatCons(first, rest);
    if r == 0 {
      AtFirst(from, columns);
      FlatCons(first[j := x], rest);
      assert lines[0 := first[j := x]] == [first[j := x]] + rest;
      UpdateBefore(first, Flat(rest), j, x);
    } else {
      LineBefore(from, r, columns);
      FlatUpdate(rest, columns, r - 1, from - columns, j, x);
      var rest' := rest[r - 1 := rest[r - 1][j := x]];
      assert lines[r := lines[r][j := x]] == [first] + rest';
      FlatCons(first, rest');
      UpdateBehind(first, Flat(rest), from - columns + j, x);
    }
  }

  lemma AtFirst(from: nat, columns: nat)
    requires StartsLine(from, 0, columns)
    ensures from == 0
  {
  }

  lemma LineBefore(from: nat, r: nat, columns: nat)
    requires 0 < r && StartsLine(from, r, columns)
    ensures from >= columns && StartsLine(from - columns, r - 1, columns)
  {
    RowFits(r - 1, r, columns);
  }

  lemma {:induction false} FlatAppend(lines: seq<Line>, line: Line)
    ensures Flat(lines + [line]) == Flat(lines) + line
  {
    if |lines| == 0 {
      assert lines + [line] == [line];
      assert [line][1..] == [];
    } else {
      FlatAppend(lines[1..], line);
      assert (lines + [line])[1..] == lines[1..] + [line];
    }
  }

  lemma FlatScroll(lines: seq<Line>, columns: nat, line: Line)
    requires Rectangular(lines, columns) && |lines| >= 1
    ensures |Flat(lines)| >= columns && Flat(lines[1..] + [line]) == Flat(lines)[columns..] + line
  {
    FlatAppend(lines[1..], line);
  }

  /** Cell `from` is the first one of line `i`. */
  ghost predicate StartsLine(from: nat, i: nat, columns: nat) {
    from == i * columns
  }

  lemma FirstLine(rows: nat, columns: nat)
    requires 1 <= rows
    ensures StartsLine(0, 0, columns) && columns <= rows * columns && (rows == 1 ==> columns == rows * columns)
  {
    RowFits(0, rows, columns);
  }

  lemma NextLine(from: nat, i: nat, rows: nat, columns: nat)
    requires 1 <= i < rows && StartsLine(from, i - 1, columns)
    ensures StartsLine(from + columns, i, columns) && from + 2 * columns <= rows * columns
    ensures i + 1 == rows ==> from + 2 * columns == rows * columns
  {
    RowFits(i - 1, rows, columns);
    RowFits(i, rows, columns);
  }

  lemma LastLine(rows: nat, columns: nat)
    requires 1 <= rows
    ensures columns <= rows * columns && StartsLine(rows * columns - columns, rows - 1, columns)
  {
    RowFits(rows - 1, rows, columns);
  }

  lemma ScrolledCells(was: seq<Cell>, moved: seq<Cell>, now: seq<Cell>, columns: nat, attrs: nat)
    requires |now| == |moved| == |was| >= columns
    requires forall k :: 0 <= k < |was| - columns ==> moved[k] == was[k + columns]
    requires forall k :: 0 <= k < |was| ==> now[k] == if k < |was| - columns then moved[k] else Cell(' ', attrs)
    ensures now == was[columns..] + Blank(columns, attrs)
  {
  }

  /** Scrolling a screen and scrolling its cells. */
  lemma ScrolledScreen(size: Size, s: Screen, now: seq<Cell>)
    requires ScreenOk(size, s)
    requires now == Flat(s.lines)[size.columns..] + Blank(size.columns, s.attrs)
    ensures ScreenOk(size, Scrolled(size, s)) && now == Flat(Scrolled(size, s).lines)
  {
    FlatScroll(s.lines, size.columns, Blank(size.columns, s.attrs));
  }

  lemma SubPrefix(s: seq<char>, n: nat, i: nat, j: nat)
    requires i <= j <= n <= |s|
    ensures s[i..j] == s[..n][i..j]
  {
  }

  lemma {:induction false} CStringPadded(s: seq<char>, t: seq<char>)
    requires |s| <= |t| && t[..|s|] == s && (forall k :: |s| <= k < |t| ==> t[k] == NUL)
    ensures CString(t) == CString(s)
  {
    if |s| > 0 && s[0] != NUL {
      assert t[0] == t[..|s|][0];
      assert t[1..][..|s| - 1] == t[..|s|][1..];
      CStringPadded(s[1..], t[1..]);
    } else if |s| > 0 {
      assert t[0] == t[..|s|][0];
    }
  }

  lemma AtoiPadded(s: seq<char>, t: seq<char>)
    requires |s| <= |t| && t[..|s|] == s && (forall k :: |s| <= k < |t| ==> t[k] == NUL)
    ensures AtoiOf(t) == AtoiOf(s)
  {
    CStringPadded(s, t);
  }

  class Console {
    const size: Size
    const buffer: array<Cell>
    const escSequence: array<char>
    const escParameter: array<char>
    var row: nat
    var column: nat
    var attrs: nat
    var escLength: nat
    ghost var screen: Screen

    ghost predicate Valid()
      reads this, buffer, escSequence
    {
      && ScreenOk(size, screen)
      && size.rows * size.columns < 0x1_0000
      && buffer[..] == Flat(screen.lines)
      && row == screen.row && column == screen.column && attrs == screen.attrs
      && escSequence.Length == ESC_MAX && escParameter.Length == ESC_MAX && escSequence != escParameter
      && escLength == |screen.esc| <= ESC_MAX && escSequence[..escLength] == screen.esc
    }

    /** `__console_initialize` */
    constructor (size: Size)
      requires size.Valid() && size.rows * size.columns < 0x1_0000
      ensures Valid() && this.size == size && screen == Initial(size)
      ensures fresh(buffer) && fresh(escSequence) && fresh(escParameter)
    {
      this.size := size;
      row, column, attrs, escLength := 0, 0, INITIAL_ATTRS, 0;
      buffer := new Cell[size.rows * size.columns](_ => Cell(' ', INITIAL_ATTRS));
      escSequence := new char[ESC_MAX](_ => NUL);
      escParameter := new char[ESC_MAX](_ => NUL);
      screen := Initial(size);
      new;
      InitialOk(size);
      BlankFlat(size.rows, size.columns);
    }

    /** The scroll at the start of a plain character. */
    method Scroll()
      requires Valid() && row == size.rows
      modifies this`row, this`column, this`screen, buffer
      ensures Valid() && screen == Scrolled(size, old(screen))
    {
      hide Flat, Blank;
      hide Rectangular;
      FlatLength(screen.lines, size.columns);
      ScrollCells();
      ScrolledScreen(size, screen, buffer[..]);
      column := 0;
      row := row - 1;
      screen := Scrolled(size, screen);
    }

    /** The scroll of the cells. */
    method ScrollCells()
      requires size.Valid() && buffer.Length == size.rows * size.columns
      modifies buffer
      ensures buffer.Length >= size.columns
      ensures buffer[..] == old(buffer[..])[size.columns..] + Blank(size.columns, attrs)
    {
      hide Blank, StartsLine;
      ghost var was := buffer[..];
      LastLine(size.rows, size.columns);
      MoveRows();
      ghost var moved := buffer[..];
      ghost var from: nat := buffer.Length - size.columns;
      assert forall k :: 0 <= k < from ==> moved[k] == was[k + size.columns];
      BlankRow(from, size.rows - 1);
      ScrolledCells(was, moved, buffer[..], size.columns, attrs);
    }

    /** Every line but the first moves one line up. */
    method MoveRows()
      requires size.Valid() && buffer.Length == size.rows * size.columns
      modifies buffer
      ensures forall k :: 0 <= k < buffer.Length - size.columns ==> buffer[k] == old(buffer[k + size.columns])
    {
      hide StartsLine;
      var i := 1;
      ghost var done: nat := 0;
      FirstLine(size.rows, size.columns);
      while i < size.rows
        invariant 1 <= i <= size.rows && StartsLine(done, i - 1, size.columns) && done + size.columns <= buffer.Length
        invariant i == size.rows ==> done + size.columns == buffer.Length
        invariant forall k :: 0 <= k < done ==> buffer[k] == old(buffer[k + size.columns])
        invariant forall k :: done <= k < buffer.Length ==> buffer[k] == old(buffer[k])
      {
        NextLine(done, i, size.rows, size.columns);
        MoveRow(done, i);
        done := done + size.columns;
        i := i + 1;
      }
    }

    /** Copying line `i` over the line above it, which starts at cell `from`. */
    method MoveRow(ghost from: nat, i: nat)
      requires 1 <= i < size.rows && buffer.Length == size.rows * size.columns
      requires StartsLine(from, i - 1, size.columns) && from + 2 * size.columns <= buffer.Length
      modifies buffer
      ensures forall k :: 0 <= k < buffer.Length ==>
                buffer[k] == if from <= k < from + size.columns then old(buffer[k + size.columns]) else old(buffer[k])
    {
      var columns := size.columns;
      var above, line := (i - 1) * columns, i * columns;
      RowFits(i - 1, size.rows, columns);
      var j := 0;
      while j < columns
        invariant 0 <= j <= columns
        invariant forall k :: 0 <= k < buffer.Length ==>
                    buffer[k] == if from <= k < from + j then old(buffer[k + columns]) else old(buffer[k])
      {
        buffer[above + j] := buffer[line + j];
        j := j + 1;
      }
    }

    /** Blanking line `r`, which starts at cell `from`, with the current attributes. */
    method BlankRow(ghost from: nat, r: nat)
      requires r < size.rows && StartsLine(from, r, size.columns) && from + size.columns <= buffer.Length
      modifies buffer
      ensures forall k :: 0 <= k < buffer.Length ==>
                buffer[k] == if from <= k < from + size.columns then Cell(' ', attrs) else old(buffer[k])
    {
      var first := r * size.columns;
      var i := 0;
      while i < size.columns
        invariant 0 <= i <= size.columns
        invariant forall k :: 0 <= k < buffer.Length ==>
                    buffer[k] == if from <= k < from + i then Cell(' ', attrs) else old(buffer[k])
      {
        var index := first + i;
        buffer[index] := Cell(' ', attrs);
        i := i + 1;
      }
    }

    /** Storing one cell of the visible buffer. */
    method SetCell(r: nat, j: nat, cell: Cell)
      requires Valid() && r < size.rows && j < size.columns
      modifies buffer, this`screen
      ensures Valid() && screen == old(screen).(lines := old(screen).lines[r := old(screen).lines[r][j := cell]])
    {
      hide Flat;
      FlatUpdate(screen.lines, size.columns, r, r * size.columns, j, cell);
      buffer[r * size.columns + j] := cell;
      screen := screen.(lines := screen.lines[r := screen.lines[r][j := cell]]);
    }

    /** A character outside any escape sequence. */
    method PutPlain(c: char)
      requires Valid()
      modifies this`row, this`column, this`screen, buffer
      ensures Valid() && screen == Plain(size, old(screen), c)
    {
      hide Flat, Blank;
      if row == size.rows {
        Scroll();
      }
      if c == '\n' {
        column := 0;
        row := row + 1;
        screen := screen.(column := 0, row := screen.row + 1);
      } else {
        SetCell(row, column, Cell(c, attrs));
        column := column + 1;
        if column == size.columns {
          column := 0;
          row := row + 1;
        }
        screen := screen.(column := column, row := row);
      }
    }

    /** `console_clear_to_end_of_line` */
    method ClearToEndOfLine()
      requires Valid()
      modifies this`row, this`column, this`screen, buffer
      ensures Valid() && screen == ClearToEol(size, old(screen))
    {
      hide Flat;
      if row == size.rows {
        return;
      }
      ghost var s0 := screen;
      ghost var line := screen.lines[row];
      var i := column;
      assert line[..column] + Blank(0, attrs) + line[column..] == line;
      assert screen.lines[row := line] == screen.lines;
      while i < size.columns
        invariant column <= i <= size.columns && Valid()
        invariant row == s0.row && column == s0.column && attrs == s0.attrs && escLength == old(escLength)
        invariant screen == s0.(lines := s0.lines[row := line[..column] + Blank(i - column, attrs) + line[i..]])
      {
        SetCell(row, i, Cell(' ', attrs));
        assert (line[..column] + Blank(i - column, attrs) + line[i..])[i := Cell(' ', attrs)]
            == line[..column] + Blank(i + 1 - column, attrs) + line[i + 1..];
        i := i + 1;
      }
      assert line[..column] + Blank(i - column, attrs) + line[i..] == line[..column] + Blank(i - column, attrs);
      row := row + 1;
      column := 0;
      screen := screen.(row := row, column := 0);
    }

    /** `console_sgr_consume_parameter`, with the end of the parameter that it returns. */
    method ConsumeParameter(pos: nat) returns (end: int)
      requires Valid() && pos >= 1
      modifies this`attrs, this`screen, escParameter
      ensures Valid()
      ensures end == if pos >= escLength then -1 else Terminator(old(screen).esc, pos)
      ensures screen == old(screen).(attrs := if end == -1 then old(attrs)
                                              else ApplyCode(old(attrs), AtoiOf(old(screen).esc[pos..end])))
    {
      hide Flat, AtoiOf, ApplyCode, ScreenOk;
      assert screen == screen.(attrs := attrs);
      if pos >= escLength {
        return -1;
      }
      end := FindTerminator(pos);
      if end == -1 {
        return;
      }
      CopyParameter(pos, end);
      SubPrefix(escSequence[..], escLength, pos, end);
      var value := Atoi(escParameter[..]);
      attrs := ApplyCode(attrs, value);
      screen := screen.(attrs := attrs);
      SameScreen(size, old(screen), attrs);
    }

    lemma SameScreen(size: Size, s: Screen, a: nat)
      requires ScreenOk(size, s)
      ensures ScreenOk(size, s.(attrs := a))
    {
    }

    /** `console_parameter_terminator` */
    method FindTerminator(pos: nat) returns (end: int)
      requires escLength <= escSequence.Length && pos <= escLength
      ensures end == Terminator(escSequence[..escLength], pos)
    {
      var i := pos;
      while i < escLength
        invariant pos <= i <= escLength
        invariant Terminator(escSequence[..escLength], pos) == Terminator(escSequence[..escLength], i)
      {
        if escSequence[i] == ';' || escSequence[i] == 'm' {
          return i;
        }
        i := i + 1;
      }
      return -1;
    }

    /** The parameter text, NUL terminated, in its own buffer. */
    method CopyParameter(pos: nat, end: nat)
      requires escSequence.Length == ESC_MAX && escParameter.Length == ESC_MAX && escSequence != escParameter
      requires pos <= end < ESC_MAX
      modifies escParameter
      ensures AtoiOf(escParameter[..]) == AtoiOf(escSequence[pos..end])
    {
      hide CString, AtoiOf;
      var i := 0;
      while i < ESC_MAX
        invariant 0 <= i <= ESC_MAX
        invariant forall k :: 0 <= k < i ==> escParameter[k] == NUL
      {
        escParameter[i] := NUL;
        i := i + 1;
      }
      ghost var n := end - pos;
      i := 0;
      while i < end - pos
        invariant 0 <= i <= n
        invariant forall k :: i <= k < ESC_MAX ==> escParameter[k] == NUL
        invariant escParameter[..i] == escSequence[pos..pos + i]
      {
        escParameter[i] := escSequence[pos + i];
        i := i + 1;
      }
      AtoiPadded(escSequence[pos..end], escParameter[..]);
    }

    /** `console_sgr` */
    method Sgr()
      requires Valid() && escLength >= 2
      modifies this`attrs, this`screen, escParameter
      ensures Valid() && screen == old(screen).(attrs := SgrFrom(old(attrs), old(screen).esc, 2))
    {
      hide Flat, AtoiOf, ApplyCode, ScreenOk, Terminator;
      ghost var esc := screen.esc;
      var pos := 1;
      while pos > 0
        invariant Valid() && (pos > 0 ==> pos <= escLength) && escLength == old(escLength)
        invariant screen == old(screen).(attrs := attrs)
        invariant SgrFrom(old(attrs), esc, 2) == if pos > 0 then SgrFrom(attrs, esc, pos + 1) else attrs
        decreases if pos > 0 then escLength - pos + 1 else 0
      {
        pos := ConsumeParameter(pos + 1);
      }
    }

    /** One more byte of the escape sequence. */
    method AppendEscape(c: char)
      requires Valid() && escLength < ESC_MAX
      modifies this`escLength, this`screen, escSequence
      ensures Valid() && screen == old(screen).(esc := old(screen).esc + [c])
    {
      hide Flat, ScreenOk;
      escSequence[escLength] := c;
      escLength := escLength + 1;
      EscapeScreen(size, screen, screen.esc + [c]);
      assert escSequence[..escLength] == screen.esc + [c];
      screen := screen.(esc := screen.esc + [c]);
    }

    lemma EscapeScreen(size: Size, s: Screen, esc: seq<char>)
      requires ScreenOk(size, s)
      ensures ScreenOk(size, s.(esc := esc))
    {
    }

    method EndEscape()
      requires Valid()
      modifies this`escLength, this`screen
      ensures Valid() && screen == old(screen).(esc := [])
    {
      hide Flat, ScreenOk;
      escLength := 0;
      EscapeScreen(size, screen, []);
      screen := screen.(esc := []);
    }

    /** `__console_putch`.  The sequence buffer has no overflow check, so when it is full only a new escape
        may follow. */
    method PutChar(c: char)
      requires Valid() && (escLength < ESC_MAX || c == ESC)
      modifies this`row, this`column, this`attrs, this`escLength, this`screen, buffer, escSequence, escParameter
      ensures Valid() && screen == Putch(size, old(screen), c)
    {
      hide Flat, ScreenOk, Plain, ClearToEol, SgrFrom;
      ghost var s := screen;
      if c == ESC {
        EndEscape();
        AppendEscape(c);
        return;
      }
      if escLength > 0 {
        if escLength == 1 {
          if c == '[' {
            AppendEscape(c);
          } else {
            EndEscape();
            return;
          }
        } else if 64 <= c as int <= 126 {
          AppendEscape(c);
          if c == 'K' {
            ClearToEndOfLine();
            ClearIgnoresEscape(size, s, s.esc + [c]);
          } else if c == 'm' {
            Sgr();
          }
          EndEscape();
        } else {
          AppendEscape(c);
        }
      } else {
        PutPlain(c);
      }
    }

    lemma ClearIgnoresEscape(size: Size, s: Screen, esc: seq<char>)
      requires ScreenOk(size, s) && ScreenOk(size, s.(esc := esc))
      ensures ClearToEol(size, s.(esc := esc)).(esc := []) == ClearToEol(size, s).(esc := [])
    {
    }

    /** `console_write`, for texts whose escape sequences fit in the buffer. */
    method WriteText(text: seq<char>)
      requires Valid() && SequencesFit(size, screen, text)
      modifies this`row, this`column, this`attrs, this`escLength, this`screen, buffer, escSequence, escParameter
      ensures Valid() && screen == Write(size, old(screen), text)
    {
      hide Flat, ScreenOk, Putch;
      ghost var s := screen;
      var i := 0;
      while i < |text|
        invariant 0 <= i <= |text| && Valid() && ScreenOk(size, s) && screen == Write(size, s, text[..i])
      {
        assert |Write(size, s, text[..i]).esc| < ESC_MAX || text[i] == ESC;
        PutChar(text[i]);
        assert text[..i + 1][..i] == text[..i];
        i := i + 1;
      }
      assert text[..i] == text;
    }
  }

  ghost predicate SequencesFit(size: Size, s: Screen, text: seq<char>)
    requires ScreenOk(size, s)
  {
    forall i :: 0 <= i < |text| ==> |Write(size, s, text[..i]).esc| < ESC_MAX || text[i] == ESC
  }

  /** Plain text always fits: no character of it enters a sequence. */
  lemma {:induction false} PlainTextFits(size: Size, s: Screen, text: seq<char>)
    requires ScreenOk(size, s) && s.esc == [] && ESC !in text
    ensures SequencesFit(size, s, text) && Write(size, s, text).esc == []
    decreases |text|
  {
    hide ScreenOk, Plain;
    if |text| > 0 {
      var before := text[..|text| - 1];
      PlainTextFits(size, s, before);
      forall i | 0 <= i < |text| ensures |Write(size, s, text[..i]).esc| < ESC_MAX {
        if i < |before| {
          assert text[..i] == before[..i];
        }
      }
      PlainKeepsEscape(size, Write(size, s, before), text[|text| - 1]);
    }
  }

  /** A whole sequence fits exactly when it has at most 29 parameter bytes. */
  lemma SequenceFitsIff(size: Size, s: Screen, params: seq<char>, c: char)
    requires ScreenOk(size, s) && s.esc == [] && ParameterBytes(params) && c != ESC
    ensures SequencesFit(size, s, [ESC, '['] + params + [c]) <==> |params| <= 29
  {
    hide ScreenOk, Putch, ParameterBytes;
    var text := [ESC, '['] + params + [c];
    forall i | 0 <= i < |text| ensures |Write(size, s, text[..i]).esc| == i {
      Opening(size, s, params, c, i);
    }
    if SequencesFit(size, s, text) {
      assert text[|text| - 1] == c;
    }
  }

  /** As many bytes are buffered as have arrived. */
  lemma Opening(size: Size, s: Screen, params: seq<char>, c: char, i: nat)
    requires ScreenOk(size, s) && s.esc == [] && ParameterBytes(params) && i <= 2 + |params|
    ensures |Write(size, s, ([ESC, '['] + params + [c])[..i]).esc| == i
  {
    hide Putch;
    var text := [ESC, '['] + params + [c];
    if i >= 2 {
      assert text[..i] == [ESC, '['] + params[..i - 2];
      Collects(size, s, params[..i - 2]);
    } else if i == 1 {
      assert text[..1] == [ESC] && [ESC][..0] == [];
      OneEscape(size, s);
    } else {
      assert text[..0] == [];
    }
  }

  lemma OneEscape(size: Size, s: Screen)
    requires ScreenOk(size, s)
    ensures Write(size, s, [ESC]) == s.(esc := [ESC])
  {
    assert [ESC][..0] == [];
    assert Write(size, s, []) == s;
  }

  lemma PlainKeepsEscape(size: Size, s: Screen, c: char)
    requires ScreenOk(size, s) && s.esc == [] && c != ESC
    ensures Putch(size, s, c).esc == []
  {
  }

  lemma {:induction false} BlankFlat(rows: nat, columns: nat)
    ensures Flat(seq(rows, _ => Blank(columns, INITIAL_ATTRS))) == seq(rows * columns, _ => Cell(' ', INITIAL_ATTRS))
  {
    var blank := Blank(columns, INITIAL_ATTRS);
    if rows > 0 {
      BlankFlat(rows - 1, columns);
      RowFits(rows - 1, rows, columns);
      assert seq(rows, _ => blank)[1..] == seq(rows - 1, _ => blank);
    }
  }
}
