/** What a format string means: the grammar of conversion specifications and the text of each conversion. */
module FormatModel {
  import opened Numbers

  /** The DP_F_ flags. */
  datatype Flags = Flags(minus: bool, plus: bool, space: bool, num: bool, zero: bool, up: bool, unsigned: bool)

  const NO_FLAGS := Flags(false, false, false, false, false, false, false)

  /** What the text depends on besides the format: the 32-bit words of the argument list (every integer
      and pointer is one word, a double two), the memory that `%s` reads, and the text of a double. */
  datatype Env = Env(word: nat -> int, text: int -> seq<char>, float: (int, int, int, int, Flags) -> seq<char>)

  /** A conversion specification that has been read up to `rest`; `max` is -1 when not given. */
  datatype Directive = Directive(flags: Flags, min: int, max: int, arg: nat, rest: seq<char>)

  function Max(a: int, b: int): int { if a >= b then a else b }

  /** The character under the format pointer. */
  function Head(f: seq<char>): char { if |f| == 0 then NUL else f[0] }
  function Tail(f: seq<char>): (r: seq<char>)
    ensures |f| > 0 ==> |r| < |f|
    ensures |r| <= |f|
  {
    if |f| == 0 then [] else f[1..]
  }

  // ----- the grammar: flags, width, precision, length modifier

  predicate IsFlag(c: char) { c == '-' || c == '+' || c == ' ' || c == '#' || c == '0' }
  predicate IsDigit(c: char) { '0' <= c <= '9' }

  function WithFlag(fl: Flags, c: char): Flags {
    if c == '-' then fl.(minus := true)
    else if c == '+' then fl.(plus := true)
    else if c == ' ' then fl.(space := true)
    else if c == '#' then fl.(num := true)
    else fl.(zero := true)
  }

  /** One more digit of a width or a precision, in 32-bit arithmetic. */
  function MoreDigits(n: int, c: char): int { Int32(10 * n + c as int - '0' as int) }

  function AfterFlags(d: Directive): (r: Directive)
    ensures |r.rest| <= |d.rest|
    decreases |d.rest|
  {
    if IsFlag(Head(d.rest)) then AfterFlags(d.(flags := WithFlag(d.flags, Head(d.rest)), rest := Tail(d.rest)))
    else d
  }

  function AfterWidth(env: Env, d: Directive): (r: Directive)
    ensures |r.rest| <= |d.rest|
    decreases |d.rest|
  {
    if IsDigit(Head(d.rest)) then AfterWidth(env, d.(min := MoreDigits(d.min, Head(d.rest)), rest := Tail(d.rest)))
    else if Head(d.rest) == '*' then d.(min := Int32(env.word(d.arg)), arg := d.arg + 1, rest := Tail(d.rest))
    else d
  }

  function AfterPoint(env: Env, d: Directive): (r: Directive)
    ensures |r.rest| <= |d.rest|
    decreases |d.rest|
  {
    if IsDigit(Head(d.rest)) then
      AfterPoint(env, d.(max := MoreDigits(Max(d.max, 0), Head(d.rest)), rest := Tail(d.rest)))
    else if Head(d.rest) == '*' then d.(max := Int32(env.word(d.arg)), arg := d.arg + 1, rest := Tail(d.rest))
    else d
  }

  function AfterPrecision(env: Env, d: Directive): (r: Directive)
    ensures |r.rest| <= |d.rest|
  {
    if Head(d.rest) == '.' then AfterPoint(env, d.(rest := Tail(d.rest))) else d
  }

  /** A length modifier changes nothing: on this machine every integer argument is one word. */
  function AfterModifier(d: Directive): (r: Directive)
    ensures |r.rest| <= |d.rest|
  {
    if Head(d.rest) == 'h' || Head(d.rest) == 'L' then d.(rest := Tail(d.rest))
    else if Head(d.rest) == 'l' then
      var t := Tail(d.rest);
      d.(rest := if Head(t) == 'l' then Tail(t) else t)
    else d
  }

  function Parsed(env: Env, d: Directive): (r: Directive)
    ensures |r.rest| <= |d.rest|
  {
    AfterModifier(AfterPrecision(env, AfterWidth(env, AfterFlags(d))))
  }

  function Start(arg: nat, rest: seq<char>): Directive {
    Directive(NO_FLAGS, 0, -1, arg, rest)
  }

  // ----- conversions

  function Copies(c: char, n: int): (s: seq<char>)
    ensures |s| == if n < 0 then 0 else n
  {
    if n <= 0 then [] else Copies(c, n - 1) + [c]
  }

  function Sign(value: int, flags: Flags): (s: seq<char>)
    ensures |s| <= 1
  {
    if flags.unsigned then []
    else if value < 0 then ['-']
    else if flags.plus then ['+']
    else if flags.space then [' ']
    else []
  }

  /** The unsigned number whose digits are printed. */
  function Magnitude(value: int, flags: Flags): (u: nat)
    ensures u < TWO32
  {
    if !flags.unsigned && value < 0 then -value % TWO32 else value % TWO32
  }

  /** Zeros wanted by the precision, and spaces wanted by the width. */
  function ZeroPad(digits: nat, max: int): nat { if max > digits then max - digits else 0 }
  function SpacePad(digits: nat, sign: nat, min: int, max: int): (n: int)
    ensures n >= 0
  {
    var n := Int32(min - Max(max, digits) - sign);
    if n < 0 then 0 else n
  }

  /** The text of an integer conversion (`fmtint`). */
  function IntText(value: int, base: nat, min: int, max: int, flags: Flags): seq<char>
    requires 8 <= base <= 16
  {
    var digits, sign := Digits(Magnitude(value, flags), base, flags.up), Sign(value, flags);
    var zeros, spaces := ZeroPad(|digits|, max), SpacePad(|digits|, |sign|, min, Max(max, 0));
    if flags.zero then sign + Copies('0', Max(zeros, spaces)) + digits
    else if flags.minus then sign + Copies('0', zeros) + digits + Copies(' ', spaces)
    else Copies(' ', spaces) + sign + Copies('0', zeros) + digits
  }

  function FirstOf(s: seq<char>, n: int): seq<char> {
    if n <= 0 then [] else if n >= |s| then s else s[..n]
  }

  /** A string padded to its field width and then cut to `max` characters (`fmtstr`). */
  function StrText(value: seq<char>, min: int, max: int, flags: Flags): seq<char> {
    var pad := Copies(' ', Int32(min - |value|));
    FirstOf(if flags.minus then value + pad else pad + value, max)
  }

  /** The bytes at an address, and what `fmtstr` prints for it. */
  function StringAt(env: Env, addr: int): seq<char> { CString(env.text(addr)) }
  function Printable(env: Env, addr: int): seq<char> { if addr == 0 then "<NULL>" else StringAt(env, addr) }

  /** The cut that `%s` applies to a string: a width larger than the precision replaces it. */
  function StrCut(length: nat, min: int, max: int): int {
    var m := if max == -1 then length else max;
    if min > 0 && m >= 0 && min > m then min else m
  }

  function StrMax(env: Env, addr: int, min: int, max: int): int {
    StrCut(|StringAt(env, addr)|, min, max)
  }

  /** The text of one conversion. */
  function Converted(env: Env, c: char, d: Directive): seq<char> {
    var value, fl := Int32(env.word(d.arg)), d.flags;
    if c == 'd' || c == 'i' then IntText(value, 10, d.min, d.max, fl)
    else if c == 'o' then IntText(value, 8, d.min, d.max, fl.(unsigned := true))
    else if c == 'u' then IntText(value, 10, d.min, d.max, fl.(unsigned := true))
    else if c == 'X' then IntText(value, 16, d.min, d.max, fl.(up := true, unsigned := true))
    else if c == 'x' then IntText(value, 16, d.min, d.max, fl.(unsigned := true))
    else if c == 'p' then IntText(value, 16, d.min, d.max, fl)
    else if c == 'c' then [(env.word(d.arg) % 256) as char]
    else if c == 's' then
      var addr := env.word(d.arg) % TWO32;
      StrText(Printable(env, addr), d.min, StrMax(env, addr, d.min, d.max), fl)
    else if c == 'f' then env.float(env.word(d.arg), env.word(d.arg + 1), d.min, d.max, fl)
    else if c == '%' then ['%']
    else []
  }

  /** The argument words that a conversion takes. */
  function Words(c: char): nat {
    if c == 'd' || c == 'i' || c == 'o' || c == 'u' || c == 'X' || c == 'x' || c == 'p' || c == 'c' || c == 's' || c == 'n'
    then 1
    else if c == 'f' || c == 'E' || c == 'e' || c == 'G' || c == 'g' then 2
    else 0
  }

  /** `%w` is read over together with the character behind it. */
  function AfterConversion(c: char, f: seq<char>): (r: seq<char>)
    ensures |r| <= |f|
    ensures |f| > 0 ==> |r| < |f|
  {
    if c == 'w' then Tail(Tail(f)) else Tail(f)
  }

  /** The output of a format with no bound on its length. */
  function Render(env: Env, f: seq<char>, arg: nat): seq<char>
    decreases |f|, 0
  {
    if Head(f) == NUL then []
    else if Head(f) != '%' then [Head(f)] + Render(env, Tail(f), arg)
    else
      var d := Parsed(env, Start(arg, Tail(f)));
      var c := Head(d.rest);
      if c == NUL then []
      else Converted(env, c, d) + Render(env, AfterConversion(c, d.rest), d.arg + Words(c))
  }

  /** The output from a fully read specification on. */
  function Finish(env: Env, d: Directive): seq<char> {
    var c := Head(d.rest);
    if c == NUL then [] else Converted(env, c, d) + Render(env, AfterConversion(c, d.rest), d.arg + Words(c))
  }

  // ----- integer texts

  /** The digits of every conversion evaluate back to the 32-bit number, and fit the scratch array. */
  lemma MagnitudeDigits(value: int, base: nat, flags: Flags)
    requires 8 <= base <= 16
    ensures Eval(Digits(Magnitude(value, flags), base, flags.up), base) == Magnitude(value, flags)
    ensures |Digits(Magnitude(value, flags), base, flags.up)| <= 11
  {
    EvalDigits(Magnitude(value, flags), base, flags.up);
    DigitsFit(Magnitude(value, flags), base, flags.up);
  }

  lemma CopiesAll(c: char, n: int, i: nat)
    requires i < n
    ensures Copies(c, n)[i] == c
  {
  }

  lemma CopiesNone(c: char, n: int)
    requires n <= 0
    ensures Copies(c, n) == []
  {
  }

  /** An integer field as the order in which its parts are sent. */
  lemma FieldPieces(value: int, base: nat, min: int, max: int, flags: Flags)
    requires 8 <= base <= 16
    ensures var digits, sign := Digits(Magnitude(value, flags), base, flags.up), Sign(value, flags);
            var zeros, spaces := ZeroPad(|digits|, max), SpacePad(|digits|, |sign|, min, Max(max, 0));
            var z := if flags.zero then Max(zeros, spaces) else zeros;
            var s := if flags.zero then 0 else if flags.minus then -spaces else spaces;
            IntText(value, base, min, max, flags) == Copies(' ', s) + sign + Copies('0', z) + digits + Copies(' ', -s)
  {
    hide Digits, Sign, Magnitude, SpacePad, ZeroPad, Copies, Max;
    var digits, sign := Digits(Magnitude(value, flags), base, flags.up), Sign(value, flags);
    var spaces := SpacePad(|digits|, |sign|, min, Max(max, 0));
    CopiesNone(' ', -spaces);
    CopiesNone(' ', 0);
  }

  // ----- formats as texts

  /** Text without conversions is copied. */
  lemma {:induction false} LiteralText(env: Env, text: seq<char>, f: seq<char>, arg: nat)
    requires '%' !in text && NUL !in text
    ensures Render(env, text + f, arg) == text + Render(env, f, arg)
    decreases |text|
  {
    hide Parsed, Converted, Words, AfterConversion;
    if |text| == 0 {
      assert text + f == f;
    } else {
      assert (text + f)[1..] == text[1..] + f;
      LiteralText(env, text[1..], f, arg);
    }
  }

  function FlagsOf(fl: Flags, s: seq<char>): Flags
    decreases |s|
  {
    if |s| == 0 then fl else FlagsOf(WithFlag(fl, s[0]), s[1..])
  }

  lemma {:induction false} ReadFlags(d: Directive, s: seq<char>, f: seq<char>)
    requires d.rest == s + f && (forall i :: 0 <= i < |s| ==> IsFlag(s[i])) && !IsFlag(Head(f))
    ensures AfterFlags(d) == d.(flags := FlagsOf(d.flags, s), rest := f)
    decreases |s|
  {
    hide WithFlag;
    if |s| == 0 {
      assert s + f == f;
    } else {
      assert (s + f)[1..] == s[1..] + f;
      ReadFlags(d.(flags := WithFlag(d.flags, s[0]), rest := Tail(d.rest)), s[1..], f);
    }
  }

  lemma DigitStep(done: seq<char>, c: char)
    requires IsDigit(c)
    ensures AtoiAcc(done + [c]) == MoreDigits(AtoiAcc(done), c)
  {
    hide Int32;
    assert (done + [c])[..|done|] == done;
    assert SignedChar(c) == c as int;
  }

  lemma {:induction false} ReadWidth(env: Env, d: Directive, done: seq<char>, s: seq<char>, f: seq<char>)
    requires d.rest == s + f && (forall i :: 0 <= i < |s| ==> IsDigit(s[i])) && !IsDigit(Head(f)) && Head(f) != '*'
    requires d.min == AtoiAcc(done)
    ensures AfterWidth(env, d) == d.(min := AtoiAcc(done + s), rest := f)
    decreases |s|
  {
    hide AtoiAcc, MoreDigits;
    if |s| == 0 {
      assert s + f == f && done + s == done;
    } else {
      assert (s + f)[1..] == s[1..] + f && done + s == (done + [s[0]]) + s[1..];
      DigitStep(done, s[0]);
      ReadWidth(env, d.(min := MoreDigits(d.min, s[0]), rest := Tail(d.rest)), done + [s[0]], s[1..], f);
    }
  }

  lemma {:induction false} ReadPrecision(env: Env, d: Directive, done: seq<char>, s: seq<char>, f: seq<char>)
    requires d.rest == s + f && (forall i :: 0 <= i < |s| ==> IsDigit(s[i])) && !IsDigit(Head(f)) && Head(f) != '*'
    requires Max(d.max, 0) == AtoiAcc(done) && (|s| == 0 ==> d.max == AtoiAcc(done))
    requires forall k :: 0 <= k <= |s| ==> AtoiAcc(done + s[..k]) >= 0
    ensures AfterPoint(env, d) == d.(max := AtoiAcc(done + s), rest := f)
    decreases |s|
  {
    hide AtoiAcc, MoreDigits;
    if |s| == 0 {
      assert s + f == f && done + s == done;
    } else {
      assert (s + f)[1..] == s[1..] + f && done + s == (done + [s[0]]) + s[1..];
      DigitStep(done, s[0]);
      assert s[..1] == [s[0]];
      forall k | 0 <= k <= |s[1..]| ensures AtoiAcc(done + [s[0]] + s[1..][..k]) >= 0 {
        assert done + [s[0]] + s[1..][..k] == done + s[..k + 1];
      }
      ReadPrecision(env, d.(max := MoreDigits(Max(d.max, 0), s[0]), rest := Tail(d.rest)), done + [s[0]], s[1..], f);
    }
  }

  // ----- what a specification written out in the usual way means

  /** A specification: flag characters, a width (0 for none), a precision, a length modifier.  Width and
      precision may be asterisks, which stand for the next argument word. */
  datatype Width = Width(n: nat) | StarWidth
  datatype Precision = NoPrecision | Point | Precision(digits: nat) | StarPrecision
  datatype Spec = Spec(flags: seq<char>, width: Width, precision: Precision, modifier: seq<char>, conversion: char)

  const NO_WIDTH := Width(0)

  /** A character that the parser takes for the conversion, known or not. */
  predicate IsConversion(c: char) {
    Ends(c) && c != '.' && c != 'h' && c != 'l' && c != 'L' && c != NUL
  }

  /** A doubled `h` is read as a modifier and an unknown conversion. */
  ghost predicate SpecOk(x: Spec) {
    && (forall i :: 0 <= i < |x.flags| ==> IsFlag(x.flags[i]))
    && (x.width.Width? ==> x.width.n <= INT_MAX) && (x.precision.Precision? ==> x.precision.digits <= INT_MAX)
    && x.modifier in [[], ['h'], ['l'], ['l', 'l'], ['L']]
    && (IsConversion(x.conversion) || (x.conversion == 'h' && x.modifier == ['h']))
  }

  function WidthText(w: Width): seq<char> {
    match w
    case Width(n) => if n == 0 then [] else Digits(n, 10, false)
    case StarWidth => ['*']
  }
  function PrecisionText(p: Precision): seq<char> {
    match p
    case NoPrecision => []
    case Point => ['.']
    case Precision(n) => ['.'] + Digits(n, 10, false)
    case StarPrecision => ['.', '*']
  }
  function SpecText(x: Spec): seq<char> {
    ['%'] + (x.flags + (WidthText(x.width) + (PrecisionText(x.precision) + (x.modifier + [x.conversion]))))
  }

  /** The width, for arguments from word `arg` on. */
  function WidthOf(env: Env, x: Spec, arg: nat): int {
    match x.width
    case Width(n) => n
    case StarWidth => Int32(env.word(arg))
  }

  function WidthStars(x: Spec): nat { if x.width.StarWidth? then 1 else 0 }

  /** The precision, -1 when there is none; a point with no digits leaves it unset. */
  function PrecisionOf(env: Env, x: Spec, arg: nat): int {
    match x.precision
    case NoPrecision => -1
    case Point => -1
    case Precision(n) => n
    case StarPrecision => Int32(env.word(arg + WidthStars(x)))
  }

  /** The argument words that asterisks take. */
  function Stars(x: Spec): nat { WidthStars(x) + if x.precision.StarPrecision? then 1 else 0 }

  function SpecMeaning(env: Env, x: Spec, arg: nat, f: seq<char>): Directive {
    Directive(FlagsOf(NO_FLAGS, x.flags), WidthOf(env, x, arg), PrecisionOf(env, x, arg), arg + Stars(x),
              [x.conversion] + f)
  }

  lemma {:induction false} DigitsAreDigits(n: nat, i: nat)
    requires i < |Digits(n, 10, false)|
    ensures IsDigit(Digits(n, 10, false)[i])
    ensures n > 0 ==> Digits(n, 10, false)[0] != '0'
  {
    if n >= 10 {
      DigitsAreDigits(n / 10, if i < |Digits(n / 10, 10, false)| then i else 0);
    }
  }

  lemma {:induction false} PrefixValues(n: nat, k: nat)
    requires n <= INT_MAX && k <= |Digits(n, 10, false)|
    ensures AtoiAcc(Digits(n, 10, false)[..k]) >= 0
    decreases n
  {
    var s := Digits(n, 10, false);
    if k == |s| {
      assert s[..k] == s;
      AtoiDigits(n, false);
    } else if n >= 10 {
      PrefixValues(n / 10, k);
      assert s[..k] == Digits(n / 10, 10, false)[..k];
    } else {
      assert s[..k] == [];
    }
  }

  lemma NumberText(n: nat)
    requires n <= INT_MAX
    ensures forall i :: 0 <= i < |Digits(n, 10, false)| ==> IsDigit(Digits(n, 10, false)[i])
    ensures n > 0 ==> Digits(n, 10, false)[0] != '0'
    ensures AtoiAcc([] + Digits(n, 10, false)) == n
    ensures forall k :: 0 <= k <= |Digits(n, 10, false)| ==> AtoiAcc([] + Digits(n, 10, false)[..k]) >= 0
  {
    var s := Digits(n, 10, false);
    DigitsAreDigits(n, 0);
    forall i | 0 <= i < |s| ensures IsDigit(s[i]) {
      DigitsAreDigits(n, i);
    }
    AtoiDigits(n, false);
    assert [] + s == s;
    forall k | 0 <= k <= |s| ensures AtoiAcc([] + s[..k]) >= 0 {
      PrefixValues(n, k);
      assert [] + s[..k] == s[..k];
    }
  }

  /** The character behind a width, a precision or the flags. */
  predicate Ends(c: char) { !IsDigit(c) && c != '*' && !IsFlag(c) }

  lemma ReadModifier(d: Directive, x: Spec, f: seq<char>)
    requires SpecOk(x) && d.rest == (x.modifier + [x.conversion]) + f
    ensures AfterModifier(d) == d.(rest := [x.conversion] + f)
    ensures Ends(Head(d.rest)) && Head(d.rest) != '.'
  {
    var m, c := x.modifier, [x.conversion];
    if |m| == 0 {
      assert d.rest == c + f;
    } else if |m| == 1 {
      assert Tail(d.rest) == c + f;
    } else {
      assert Tail(d.rest) == ['l'] + (c + f);
      assert Tail(Tail(d.rest)) == c + f;
    }
  }

  lemma ReadPoint(env: Env, d: Directive, p: Precision, f: seq<char>)
    requires d.rest == PrecisionText(p) + f && d.max == -1 && Ends(Head(f)) && Head(f) != '.'
    requires p.Precision? ==> p.digits <= INT_MAX
    ensures AfterPrecision(env, d) ==
              if p.StarPrecision? then d.(max := Int32(env.word(d.arg)), arg := d.arg + 1, rest := f)
              else d.(max := if p.Precision? then p.digits else -1, rest := f)
    ensures Ends(Head(d.rest))
  {
    hide AfterPoint, Digits, AtoiAcc;
    match p
    case NoPrecision =>
      assert [] + f == f;
    case Point =>
      assert Tail(d.rest) == f;
      PointAlone(env, d.(rest := f));
    case Precision(n) =>
      NumberText(n);
      assert Tail(d.rest) == Digits(n, 10, false) + f;
      assert AtoiAcc([]) == 0 by { EmptyNumber(); }
      ReadPrecision(env, d.(rest := Tail(d.rest)), [], Digits(n, 10, false), f);
    case StarPrecision =>
      assert Tail(d.rest) == ['*'] + f && Tail(['*'] + f) == f;
      AfterStar(env, d.(rest := Tail(d.rest)), f);
  }

  lemma AfterStar(env: Env, d: Directive, f: seq<char>)
    requires d.rest == ['*'] + f
    ensures AfterPoint(env, d) == d.(max := Int32(env.word(d.arg)), arg := d.arg + 1, rest := f)
    ensures AfterWidth(env, d) == d.(min := Int32(env.word(d.arg)), arg := d.arg + 1, rest := f)
  {
    assert Tail(d.rest) == f;
  }

  lemma PointAlone(env: Env, d: Directive)
    requires Ends(Head(d.rest))
    ensures AfterPoint(env, d) == d
  {
  }

  lemma EmptyNumber()
    ensures AtoiAcc([]) == 0
  {
  }

  lemma ReadNumber(env: Env, d: Directive, w: Width, f: seq<char>)
    requires d.rest == WidthText(w) + f && d.min == 0 && (w.Width? ==> w.n <= INT_MAX) && Ends(Head(f))
    ensures AfterWidth(env, d) ==
              if w.StarWidth? then d.(min := Int32(env.word(d.arg)), arg := d.arg + 1, rest := f)
              else d.(min := w.n, rest := f)
    ensures !IsFlag(Head(d.rest))
  {
    hide AtoiAcc, Digits, AfterWidth;
    EmptyNumber();
    if w.StarWidth? {
      AfterStar(env, d, f);
    } else if w.n == 0 {
      assert [] + f == f;
      var none: seq<char> := [];
      assert none + none == none;
      ReadWidth(env, d, none, none, f);
    } else {
      NumberText(w.n);
      ReadWidth(env, d, [], Digits(w.n, 10, false), f);
    }
  }

  /** The parser reads every specification back from its text: flags in any order and number, width
      and precision as decimal numerals or asterisks. */
  lemma SpecRoundTrip(env: Env, x: Spec, f: seq<char>, arg: nat)
    requires SpecOk(x)
    ensures Parsed(env, Start(arg, Tail(SpecText(x) + f))) == SpecMeaning(env, x, arg, f)
  {
    hide AfterFlags, AfterWidth, AfterPrecision, AfterModifier, SpecOk, Ends, WidthText, PrecisionText, FlagsOf;
    var m := (x.modifier + [x.conversion]) + f;
    var p := PrecisionText(x.precision) + m;
    var w := WidthText(x.width) + p;
    assert Tail(SpecText(x) + f) == x.flags + w;
    var d0 := Start(arg, x.flags + w);
    var d1 := d0.(flags := FlagsOf(NO_FLAGS, x.flags), rest := w);
    var d2 := d1.(min := WidthOf(env, x, arg), arg := arg + WidthStars(x), rest := p);
    var d3 := d2.(max := PrecisionOf(env, x, arg), arg := arg + Stars(x), rest := m);
    ReadModifier(d3, x, f);
    SpecNumbers(x);
    ReadPoint(env, d2, x.precision, m);
    ReadNumber(env, d1, x.width, p);
    ReadFlags(d0, x.flags, w);
  }

  lemma SpecNumbers(x: Spec)
    requires SpecOk(x)
    ensures forall i :: 0 <= i < |x.flags| ==> IsFlag(x.flags[i])
    ensures (x.width.Width? ==> x.width.n <= INT_MAX) && (x.precision.Precision? ==> x.precision.digits <= INT_MAX)
  {
  }

  /** A specification in a format prints its conversion, and the rest of the format goes on behind it. */
  lemma RenderSpec(env: Env, x: Spec, f: seq<char>, arg: nat)
    requires SpecOk(x)
    ensures var d := SpecMeaning(env, x, arg, f);
            Render(env, SpecText(x) + f, arg)
              == Converted(env, x.conversion, d)
                 + Render(env, if x.conversion == 'w' then Tail(f) else f, arg + Stars(x) + Words(x.conversion))
  {
    hide Converted, Parsed, Words, Render, SpecText;
    SpecRoundTrip(env, x, f, arg);
    assert Tail([x.conversion] + f) == f;
    SpecHead(x, f);
    RenderUnfold(env, SpecText(x) + f, arg);
  }

  lemma SpecHead(x: Spec, f: seq<char>)
    ensures Head(SpecText(x) + f) == '%'
  {
  }

  lemma RenderUnfold(env: Env, f: seq<char>, arg: nat)
    requires Head(f) == '%'
    ensures Render(env, f, arg) == Finish(env, Parsed(env, Start(arg, Tail(f))))
  {
    hide Converted, Parsed, Words, AfterConversion;
  }

  // ----- printing undone by atoi

  const DECIMAL := Spec([], NO_WIDTH, NoPrecision, [], 'd')

  /** Without flags, width and precision the text is a sign and the digits. */
  lemma PlainIntText(value: int, base: nat)
    requires 8 <= base <= 16
    ensures IntText(value, base, 0, -1, NO_FLAGS) == Sign(value, NO_FLAGS) + Digits(Magnitude(value, NO_FLAGS), base, false)
  {
    hide Digits, Sign, Magnitude;
    var sign, digits := Sign(value, NO_FLAGS), Digits(Magnitude(value, NO_FLAGS), base, false);
    DigitsFit(Magnitude(value, NO_FLAGS), base, false);
    assert SpacePad(|digits|, |sign|, 0, 0) == 0;
    var none: seq<char> := [];
    assert none + sign + none + digits == sign + digits;
  }

  lemma DecimalText(value: int)
    requires INT_MIN <= value <= INT_MAX
    ensures IntText(value, 10, 0, -1, NO_FLAGS) == Decimal(value)
  {
    hide Digits, IntText;
    PlainIntText(value, 10);
  }

  /** `atoi` of the output of `%d` is the argument. */
  lemma AtoiInvertsPrint(env: Env)
    requires INT_MIN < Int32(env.word(0))
    ensures Render(env, "%d", 0) == Decimal(Int32(env.word(0)))
    ensures AtoiOf(Render(env, "%d", 0)) == Int32(env.word(0))
  {
    hide Render, IntText, AtoiOf, Decimal;
    var v := Int32(env.word(0));
    assert SpecText(DECIMAL) + [] == "%d";
    RenderSpec(env, DECIMAL, [], 0);
    RenderNothing(env, 1);
    DecimalText(v);
    AtoiDecimal(v);
  }

  lemma RenderNothing(env: Env, arg: nat)
    ensures Render(env, [], arg) == []
  {
  }

  /** `%p` prints the digits of the address exactly in the lower half of memory. */
  lemma PointerDigitsIff(env: Env)
    ensures var addr := env.word(0) % TWO32;
            Render(env, "%p", 0) == Digits(addr, 16, false) <==> addr < 0x8000_0000
  {
    hide Render, IntText;
    var x := Spec([], NO_WIDTH, NoPrecision, [], 'p');
    assert SpecText(x) + [] == "%p";
    RenderSpec(env, x, [], 0);
    RenderNothing(env, 1);
    PointerText(env.word(0));
  }

  lemma WordSign(word: int)
    ensures var addr := word % TWO32; Int32(word) == if addr < 0x8000_0000 then addr else addr - TWO32
  {
  }

  lemma PointerText(word: int)
    ensures IntText(Int32(word), 16, 0, -1, NO_FLAGS) == Digits(word % TWO32, 16, false) <==> word % TWO32 < 0x8000_0000
  {
    hide Digits, IntText, Int32;
    var value, addr := Int32(word), word % TWO32;
    WordSign(word);
    PlainIntText(value, 16);
    var digits := Digits(addr, 16, false);
    if addr < 0x8000_0000 {
      var none: seq<char> := [];
      assert none + digits == digits;
    } else {
      DigitsPlain(addr, 16, false, 0);
      assert (['-'] + Digits(Magnitude(value, NO_FLAGS), 16, false))[0] == '-';
    }
  }
}
