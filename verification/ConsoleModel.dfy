/** What one character does to the console: the escape-sequence parser, colours, wrapping and
    scrolling. */
module ConsoleModel {
  import opened Numbers

  const ESC: char := 0x1B as char
  const ESC_MAX: nat := 32
  const INITIAL_ATTRS: nat := 7

  /** A character cell; attributes are the foreground colour plus 16 times the background colour. */
  datatype Cell = Cell(ch: char, attrs: nat)

  datatype Size = Size(columns: nat, rows: nat) {
    predicate Valid() { 1 <= columns && 1 <= rows }
  }

  type Line = seq<Cell>

  /** The visible lines, the cursor, the attributes and the escape sequence read so far.  The cursor
      may stand on row `rows`: the scroll is then still to be done. */
  datatype Screen = Screen(lines: seq<Line>, row: nat, column: nat, attrs: nat, esc: seq<char>)

  function Blank(n: nat, attrs: nat): (l: Line)
    ensures |l| == n
  {
    seq(n, _ => Cell(' ', attrs))
  }

  // ----- colours and SGR (section 8.3.117 of ECMA-48)

  function EntryColor(fg: nat, bg: nat): nat
    requires fg < 16 && bg < 16
  {
    fg + 16 * bg
  }

  function Foreground(attrs: nat): nat { attrs % 16 }
  function Background(attrs: nat): nat { attrs / 16 % 16 }

  /** `console_ansi_to_vga` */
  function AnsiToVga(ansi: nat): (c: nat)
    ensures c < 16
  {
    if ansi == 0 then 0 else if ansi == 1 then 4 else if ansi == 2 then 2 else if ansi == 3 then 6
    else if ansi == 4 then 1 else if ansi == 5 then 5 else if ansi == 6 then 3 else if ansi == 7 then 7
    else 0xD
  }

  function SetBright(fg: nat): (r: nat)
    requires fg < 16
    ensures 8 <= r < 16
  {
    if fg >= 8 then fg else fg + 8
  }

  /** The meaning of one SGR parameter; most codes, 0 among them, have none here. */
  function ApplyCode(attrs: nat, value: int): nat {
    if 30 <= value <= 37 then EntryColor(AnsiToVga(value - 30), Background(attrs))
    else if 40 <= value <= 47 then EntryColor(Foreground(attrs), AnsiToVga(value - 40))
    else if value == 1 then EntryColor(SetBright(Foreground(attrs)), Background(attrs))
    else if value == 22 then EntryColor(Foreground(attrs) % 8, Background(attrs))
    else attrs
  }

  predicate IsTerminator(c: char) { c == ';' || c == 'm' }

  /** `console_parameter_terminator` */
  function Terminator(esc: seq<char>, pos: nat): (end: int)
    ensures end == -1 || (pos <= end < |esc| && IsTerminator(esc[end]))
    ensures end != -1 ==> forall i :: pos <= i < end ==> !IsTerminator(esc[i])
    ensures end == -1 ==> forall i :: pos <= i < |esc| ==> !IsTerminator(esc[i])
    decreases |esc| - pos
  {
    if pos >= |esc| then -1
    else if IsTerminator(esc[pos]) then pos
    else Terminator(esc, pos + 1)
  }

  /** The loop of `console_sgr` from the parameter at `pos` on. */
  function SgrFrom(attrs: nat, esc: seq<char>, pos: nat): nat
    decreases |esc| - pos
  {
    if pos >= |esc| then attrs
    else
      var end := Terminator(esc, pos);
      if end == -1 then attrs
      else SgrFrom(ApplyCode(attrs, AtoiOf(esc[pos..end])), esc, end + 1)
  }

  // ----- one character

  function Scrolled(size: Size, s: Screen): Screen
    requires |s.lines| == size.rows && 1 <= size.rows
  {
    s.(lines := s.lines[1..] + [Blank(size.columns, s.attrs)], column := 0, row := size.rows - 1)
  }

  function Materialised(size: Size, s: Screen): Screen
    requires |s.lines| == size.rows && 1 <= size.rows
  {
    if s.row == size.rows then Scrolled(size, s) else s
  }

  ghost predicate ScreenOk(size: Size, s: Screen) {
    && size.Valid()
    && |s.lines| == size.rows
    && (forall i :: 0 <= i < |s.lines| ==> |s.lines[i]| == size.columns)
    && s.column < size.columns && s.row <= size.rows
  }

  /** A plain character or newline. */
  function Plain(size: Size, s0: Screen, c: char): Screen
    requires ScreenOk(size, s0)
  {
    var s := Materialised(size, s0);
    if c == '\n' then s.(column := 0, row := s.row + 1)
    else
      var t := s.(lines := s.lines[s.row := s.lines[s.row][s.column := Cell(c, s.attrs)]]);
      if s.column + 1 == size.columns then t.(column := 0, row := s.row + 1)
      else t.(column := s.column + 1)
  }

  /** `console_clear_to_end_of_line`; it also moves to the next line. */
  function ClearToEol(size: Size, s: Screen): Screen
    requires ScreenOk(size, s)
  {
    if s.row == size.rows then s
    else
      var line := s.lines[s.row][..s.column] + Blank(size.columns - s.column, s.attrs);
      s.(lines := s.lines[s.row := line], row := s.row + 1, column := 0)
  }

  /** What the final byte of a control sequence does. */
  function Control(size: Size, s: Screen, esc: seq<char>, c: char): Screen
    requires ScreenOk(size, s)
  {
    if c == 'K' then ClearToEol(size, s)
    else if c == 'm' then s.(attrs := SgrFrom(s.attrs, esc, 2))
    else s
  }

  predicate IsFinal(c: char) { 64 <= c as int <= 126 }

  /** `__console_putch` */
  function Putch(size: Size, s: Screen, c: char): (r: Screen)
    requires ScreenOk(size, s)
    ensures ScreenOk(size, r)
  {
    if c == ESC then s.(esc := [ESC])
    else if |s.esc| > 0 then
      if |s.esc| == 1 then s.(esc := if c == '[' then s.esc + [c] else [])
      else if IsFinal(c) then Control(size, s, s.esc + [c], c).(esc := [])
      else s.(esc := s.esc + [c])
    else Plain(size, s, c)
  }

  /** `console_write` */
  function Write(size: Size, s: Screen, text: seq<char>): (r: Screen)
    requires ScreenOk(size, s)
    ensures ScreenOk(size, r)
  {
    if |text| == 0 then s else Putch(size, Write(size, s, text[..|text| - 1]), text[|text| - 1])
  }

  function Initial(size: Size): Screen {
    Screen(seq(size.rows, _ => Blank(size.columns, INITIAL_ATTRS)), 0, 0, INITIAL_ATTRS, [])
  }

  /** At first the screen is blank, in plain white on black. */
  lemma InitialOk(size: Size)
    requires size.Valid()
    ensures ScreenOk(size, Initial(size))
    ensures forall i, j :: 0 <= i < size.rows && 0 <= j < size.columns ==>
              Initial(size).lines[i][j] == Cell(' ', Initial(size).attrs)
    ensures SameColour(7, Initial(size).attrs % 16) && Initial(size).attrs / 16 == 0
  {
  }

  /** Splitting a text over several writes changes nothing. */
  lemma {:induction false} WriteSplit(size: Size, s: Screen, a: seq<char>, b: seq<char>)
    requires ScreenOk(size, s)
    ensures Write(size, s, a + b) == Write(size, Write(size, s, a), b)
    decreases |b|
  {
    if |b| == 0 {
      assert a + b == a;
    } else {
      WriteSplit(size, s, a, b[..|b| - 1]);
      assert (a + b)[..|a + b| - 1] == a + b[..|b| - 1];
    }
  }

  // ----- nibbles

  lemma EntryNibbles(fg: nat, bg: nat)
    requires fg < 16 && bg < 16
    ensures EntryColor(fg, bg) < 256 && Foreground(EntryColor(fg, bg)) == fg && Background(EntryColor(fg, bg)) == bg
  {
  }

  /** Codes 40 to 47 keep the foreground; 1, 22 and 30 to 37 keep the background; an attribute byte
      stays one. */
  lemma CodeNibbles(attrs: nat, value: int)
    requires attrs < 256
    ensures ApplyCode(attrs, value) < 256
    ensures 40 <= value <= 47 ==> Foreground(ApplyCode(attrs, value)) == Foreground(attrs)
    ensures value == 1 || value == 22 || 30 <= value <= 37 ==> Background(ApplyCode(attrs, value)) == Background(attrs)
    ensures value == 1 ==> Foreground(ApplyCode(attrs, value)) == Foreground(attrs) % 8 + 8
    ensures value == 22 ==> Foreground(ApplyCode(attrs, value)) == Foreground(attrs) % 8
  {
    hide AnsiToVga, EntryColor, Foreground, Background;
    NibblesOf(attrs);
    var fg, bg := Foreground(attrs), Background(attrs);
    if 30 <= value <= 37 {
      EntryNibbles(AnsiToVga(value - 30), bg);
    } else if 40 <= value <= 47 {
      EntryNibbles(fg, AnsiToVga(value - 40));
    } else if value == 1 {
      Brightens(fg);
      EntryNibbles(SetBright(fg), bg);
    } else if value == 22 {
      EntryNibbles(fg % 8, bg);
    }
  }

  lemma Brightens(fg: nat)
    requires fg < 16
    ensures SetBright(fg) == fg % 8 + 8
  {
  }

  /** The components of a colour: red is bit 0 of an ANSI number and bit 2 of a VGA number, blue the other way
      round, green bit 1 of both. */
  ghost predicate SameColour(ansi: nat, vga: nat) {
    && vga < 8
    && (vga / 4 % 2 == 1 <==> ansi % 2 == 1)
    && (vga / 2 % 2 == 1 <==> ansi / 2 % 2 == 1)
    && (vga % 2 == 1 <==> ansi / 4 % 2 == 1)
  }

  lemma ColourKept(ansi: nat)
    requires ansi < 8
    ensures SameColour(ansi, AnsiToVga(ansi))
  {
  }

  /** Codes 30 to 37 leave a foreground, and 40 to 47 a background, of the components of the colour. */
  lemma CodeColours(attrs: nat, ansi: nat)
    requires attrs < 256 && ansi < 8
    ensures SameColour(ansi, ApplyCode(attrs, 30 + ansi) % 16) && SameColour(ansi, ApplyCode(attrs, 40 + ansi) / 16)
    ensures ApplyCode(attrs, 30 + ansi) / 16 == attrs / 16 && ApplyCode(attrs, 40 + ansi) % 16 == attrs % 16
  {
    hide AnsiToVga, SameColour, EntryColor, Foreground, Background, ApplyCode;
    ColourKept(ansi);
    NibblesOf(attrs);
    CodeSets(attrs, ansi);
    EntryHalves(AnsiToVga(ansi), Background(attrs));
    EntryHalves(Foreground(attrs), AnsiToVga(ansi));
  }

  lemma CodeSets(attrs: nat, ansi: nat)
    requires ansi < 8
    ensures ApplyCode(attrs, 30 + ansi) == EntryColor(AnsiToVga(ansi), Background(attrs))
    ensures ApplyCode(attrs, 40 + ansi) == EntryColor(Foreground(attrs), AnsiToVga(ansi))
  {
    hide AnsiToVga, EntryColor, Foreground, Background;
  }

  lemma EntryHalves(fg: nat, bg: nat)
    requires fg < 16 && bg < 16
    ensures EntryColor(fg, bg) % 16 == fg && EntryColor(fg, bg) / 16 == bg
  {
  }

  /** The two halves of an attribute byte. */
  lemma NibblesOf(attrs: nat)
    requires attrs < 256
    ensures Foreground(attrs) == attrs % 16 < 16 && Background(attrs) == attrs / 16 < 16
  {
  }

  lemma LowThree(attrs: nat)
    ensures attrs % 16 % 8 == attrs % 8
  {
    var q, r := attrs / 16, attrs % 16;
    var h, low := 2 * q + r / 8, r % 8;
    assert attrs == 8 * h + low;
    EighthOf(h, low);
  }

  lemma EighthOf(h: nat, low: nat)
    requires low < 8
    ensures (8 * h + low) % 8 == low
  {
  }

  /** The codes that can change anything; 0, which resets the attributes in the standard, is not one. */
  lemma CodeActsIff(value: int)
    ensures (exists attrs :: attrs < 256 && ApplyCode(attrs, value) != attrs)
            <==> (value == 1 || value == 22 || 30 <= value <= 37 || 40 <= value <= 47)
  {
    if value == 1 {
      assert ApplyCode(0, value) == 8;
    } else if value == 22 || 30 <= value <= 37 {
      assert ApplyCode(8, value) < 8;
    } else if 40 <= value <= 47 {
      assert ApplyCode(128, value) < 128;
    }
  }

  // ----- SGR as a fold over its parameters

  /** The pieces of a text between separators. */
  function Split(s: seq<char>, sep: char): (r: seq<seq<char>>)
    ensures |r| >= 1
  {
    if |s| == 0 then [[]]
    else
      var rest := Split(s[1..], sep);
      if s[0] == sep then [[]] + rest else ConsFirst(s[0], rest)
  }

  /** A character in front of the first piece. */
  function ConsFirst(c: char, pieces: seq<seq<char>>): (r: seq<seq<char>>)
    requires |pieces| >= 1
    ensures |r| == |pieces|
  {
    [[c] + pieces[0]] + pieces[1..]
  }

  function FoldCodes(attrs: nat, params: seq<seq<char>>): nat
    decreases |params|
  {
    if |params| == 0 then attrs else FoldCodes(ApplyCode(attrs, AtoiOf(params[0])), params[1..])
  }

  /** A parameter text: no semicolon and no final byte in it. */
  predicate ParameterBytes(s: seq<char>) {
    forall i :: 0 <= i < |s| ==> !IsFinal(s[i]) && s[i] != ESC
  }

  lemma {:induction false} SplitFirst(s: seq<char>, sep: char, n: nat)
    requires n <= |s| && (forall i :: 0 <= i < n ==> s[i] != sep) && (n < |s| ==> s[n] == sep)
    ensures Split(s, sep) == [s[..n]] + if n < |s| then Split(s[n + 1..], sep) else []
    decreases n
  {
    if n == 0 {
      if |s| > 0 {
        assert s[0..0] == [];
      }
    } else {
      SplitFirst(s[1..], sep, n - 1);
      assert s[..n] == [s[0]] + s[1..][..n - 1];
      assert n < |s| ==> s[1..][n..] == s[n + 1..];
    }
  }

  /** The scanning loop folds the meaning of single codes over the parameters. */
  lemma {:induction false} SgrIsFold(attrs: nat, head: seq<char>, params: seq<char>)
    requires ParameterBytes(params)
    ensures SgrFrom(attrs, head + params + ['m'], |head|) == FoldCodes(attrs, Split(params, ';'))
    decreases |params|
  {
    hide Split, AtoiOf, ApplyCode, Terminator, IsFinal;
    var esc := head + params + ['m'];
    var n := FirstParameter(head, params);
    SplitFirst(params, ';', n);
    var first, rest := params[..n], if n < |params| then Split(params[n + 1..], ';') else [];
    var attrs' := ApplyCode(attrs, AtoiOf(first));
    SgrStep(attrs, esc, |head|, n);
    FoldStep(attrs, first, rest);
    if n < |params| {
      var head' := head + params[..n + 1];
      assert esc == head' + params[n + 1..] + ['m'];
      SgrIsFold(attrs', head', params[n + 1..]);
    }
  }

  lemma SgrStep(attrs: nat, esc: seq<char>, pos: nat, n: nat)
    requires pos + n < |esc| && Terminator(esc, pos) == pos + n
    ensures SgrFrom(attrs, esc, pos) == SgrFrom(ApplyCode(attrs, AtoiOf(esc[pos..pos + n])), esc, pos + n + 1)
    ensures pos + n + 1 == |esc| ==> SgrFrom(attrs, esc, pos) == ApplyCode(attrs, AtoiOf(esc[pos..pos + n]))
  {
    hide Terminator, AtoiOf, ApplyCode;
  }

  lemma FoldStep(attrs: nat, first: seq<char>, rest: seq<seq<char>>)
    ensures FoldCodes(attrs, [first] + rest) == FoldCodes(ApplyCode(attrs, AtoiOf(first)), rest)
  {
    hide AtoiOf, ApplyCode;
    assert ([first] + rest)[1..] == rest;
  }

  /** Where the first parameter ends. */
  lemma FirstParameter(head: seq<char>, params: seq<char>) returns (n: nat)
    requires ParameterBytes(params)
    ensures n <= |params| && (forall i :: 0 <= i < n ==> params[i] != ';') && (n < |params| ==> params[n] == ';')
    ensures var esc := head + params + ['m'];
            Terminator(esc, |head|) == |head| + n && esc[|head|..|head| + n] == params[..n]
  {
    var esc := head + params + ['m'];
    var end := Terminator(esc, |head|);
    assert esc[|esc| - 1] == 'm';
    n := end - |head|;
    forall i | 0 <= i < |params| ensures esc[|head| + i] == params[i] && params[i] != 'm' {
    }
    forall i | 0 <= i < n ensures params[i] != ';' {
      assert esc[|head| + i] == params[i];
    }
  }

  /** A whole `ESC [ params m` sequence changes the attributes by that fold, and nothing else. */
  lemma SgrSequence(size: Size, s: Screen, params: seq<char>)
    requires ScreenOk(size, s) && |s.esc| == 0 && ParameterBytes(params)
    ensures Write(size, s, [ESC, '['] + params + ['m']) == s.(attrs := FoldCodes(s.attrs, Split(params, ';')))
  {
    hide Putch;
    var text := [ESC, '['] + params + ['m'];
    var before := text[..|text| - 1];
    assert before == [ESC, '['] + params;
    Collects(size, s, params);
    PutchFinal(size, s.(esc := before));
    SgrIsFold(s.attrs, [ESC, '['], params);
  }

  lemma PutchFinal(size: Size, s: Screen)
    requires ScreenOk(size, s) && |s.esc| >= 2
    ensures Putch(size, s, 'm') == s.(attrs := SgrFrom(s.attrs, s.esc + ['m'], 2), esc := [])
  {
  }

  lemma {:induction false} Collects(size: Size, s: Screen, params: seq<char>)
    requires ScreenOk(size, s) && ParameterBytes(params)
    ensures Write(size, s, [ESC, '['] + params) == s.(esc := [ESC, '['] + params)
    decreases |params|
  {
    var text := [ESC, '['] + params;
    if |params| == 0 {
      assert text == [ESC, '['];
      assert text[..1] == [ESC];
      assert [ESC][..0] == [];
      assert Write(size, s, [ESC]) == s.(esc := [ESC]);
    } else {
      var n := |params| - 1;
      assert text[..|text| - 1] == [ESC, '['] + params[..n];
      Collects(size, s, params[..n]);
      assert text[|text| - 1] == params[n];
      assert ([ESC, '['] + params[..n]) + [params[n]] == text;
    }
  }

  // ----- colours by their sequences

  /** `ESC [ n m` applies the code `n`. */
  lemma OneCode(size: Size, s: Screen, n: nat)
    requires ScreenOk(size, s) && |s.esc| == 0 && n <= INT_MAX
    ensures Write(size, s, [ESC, '['] + Decimal(n) + ['m']) == s.(attrs := ApplyCode(s.attrs, n))
  {
    hide Write, ApplyCode, AtoiOf, Split, Decimal;
    NumeralBytes(n);
    SgrSequence(size, s, Decimal(n));
    AtoiDecimal(n);
    OnePiece(Decimal(n));
    FoldStep(s.attrs, Decimal(n), []);
    assert [Decimal(n)] + [] == [Decimal(n)];
  }

  lemma OnePiece(s: seq<char>)
    requires forall i :: 0 <= i < |s| ==> s[i] != ';'
    ensures Split(s, ';') == [s]
  {
    SplitFirst(s, ';', |s|);
    assert s[..|s|] == s && [s] + [] == [s];
  }

  lemma {:induction false} NumeralBytes(n: nat)
    ensures ParameterBytes(Decimal(n)) && forall i :: 0 <= i < |Decimal(n)| ==> Decimal(n)[i] != ';'
  {
    if n >= 10 {
      NumeralBytes(n / 10);
    }
  }

  /** `ESC [ 3 X m` leaves a foreground, and `ESC [ 4 X m` a background, of the components of X; the rest of
      the attributes and of the screen stays. */
  lemma ColourSequences(size: Size, s: Screen, x: nat)
    requires ScreenOk(size, s) && |s.esc| == 0 && s.attrs < 256 && x < 8
    ensures var r := Write(size, s, [ESC, '[', '3', ('0' as int + x) as char, 'm']);
            r == s.(attrs := r.attrs) && SameColour(x, r.attrs % 16) && r.attrs / 16 == s.attrs / 16
    ensures var r := Write(size, s, [ESC, '[', '4', ('0' as int + x) as char, 'm']);
            r == s.(attrs := r.attrs) && SameColour(x, r.attrs / 16) && r.attrs % 16 == s.attrs % 16
  {
    hide Write, ApplyCode, SameColour;
    TwoDigits(3, x);
    TwoDigits(4, x);
    assert [ESC, '['] + ['3', ('0' as int + x) as char] + ['m'] == [ESC, '[', '3', ('0' as int + x) as char, 'm'];
    assert [ESC, '['] + ['4', ('0' as int + x) as char] + ['m'] == [ESC, '[', '4', ('0' as int + x) as char, 'm'];
    OneCode(size, s, 30 + x);
    OneCode(size, s, 40 + x);
    CodeColours(s.attrs, x);
  }

  lemma TwoDigits(tens: nat, x: nat)
    requires 1 <= tens < 10 && x < 10
    ensures Decimal(10 * tens + x) == [('0' as int + tens) as char, ('0' as int + x) as char]
  {
    assert Digits(tens, 10, false) == [('0' as int + tens) as char];
  }

  /** `ESC [ 1 m` makes the foreground bright and `ESC [ 22 m` takes that back. */
  lemma BrightSequences(size: Size, s: Screen)
    requires ScreenOk(size, s) && |s.esc| == 0 && s.attrs < 256
    ensures var r := Write(size, s, [ESC, '[', '1', 'm']);
            r == s.(attrs := r.attrs) && r.attrs % 16 == s.attrs % 8 + 8 && r.attrs / 16 == s.attrs / 16
    ensures var r := Write(size, s, [ESC, '[', '2', '2', 'm']);
            r == s.(attrs := r.attrs) && r.attrs % 16 == s.attrs % 8 && r.attrs / 16 == s.attrs / 16
  {
    hide Write, ApplyCode;
    TwoDigits(2, 2);
    assert Decimal(1) == ['1'];
    assert [ESC, '['] + ['1'] + ['m'] == [ESC, '[', '1', 'm'];
    assert [ESC, '['] + ['2', '2'] + ['m'] == [ESC, '[', '2', '2', 'm'];
    OneCode(size, s, 1);
    OneCode(size, s, 22);
    hide Foreground, Background;
    CodeNibbles(s.attrs, 1);
    CodeNibbles(s.attrs, 22);
    NibblesOf(s.attrs);
    NibblesOf(ApplyCode(s.attrs, 1));
    NibblesOf(ApplyCode(s.attrs, 22));
    LowThree(s.attrs);
  }

  /** A whole sequence with a final byte other than `m`: `K` clears to the end of the line, and no other
      does anything.  Final bytes are those from `@` to `~`. */
  lemma ControlSequence(size: Size, s: Screen, params: seq<char>, c: char)
    requires ScreenOk(size, s) && |s.esc| == 0 && '@' <= c <= '~' && c != 'm'
    requires forall i :: 0 <= i < |params| ==> !('@' <= params[i] <= '~') && params[i] != ESC
    ensures Write(size, s, [ESC, '['] + params + [c]) == if c == 'K' then ClearToEol(size, s) else s
  {
    hide Putch;
    var text := [ESC, '['] + params + [c];
    var before := text[..|text| - 1];
    assert before == [ESC, '['] + params;
    Collects(size, s, params);
    PutchOther(size, s.(esc := before), s, c);
  }

  lemma PutchOther(size: Size, s: Screen, t: Screen, c: char)
    requires ScreenOk(size, t) && |s.esc| >= 2 && '@' <= c <= '~' && c != 'm' && s == t.(esc := s.esc) && t.esc == []
    ensures Putch(size, s, c) == if c == 'K' then ClearToEol(size, t) else t
  {
  }
}
