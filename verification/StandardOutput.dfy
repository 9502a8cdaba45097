/** What ISO/IEC 9899:1999 asks of conversion specifications and of whole formats, and exactly where the code
    does it. */
module StandardOutput {
  import opened Numbers
  import opened FormatModel
  import opened StandardFormat

  // ----- flags, width and precision (section 7.19.6.1 of ISO/IEC 9899:1999)

  /** The flags that the characters stand for. */
  function GivenFlags(s: seq<char>): Flags {
    Flags('-' in s, '+' in s, ' ' in s, '#' in s, '0' in s, false, false)
  }

  function Either(a: Flags, b: Flags): Flags {
    Flags(a.minus || b.minus, a.plus || b.plus, a.space || b.space, a.num || b.num, a.zero || b.zero,
          a.up || b.up, a.unsigned || b.unsigned)
  }

  lemma {:induction false} FlagsGiven(fl: Flags, s: seq<char>)
    requires forall i :: 0 <= i < |s| ==> IsFlag(s[i])
    ensures FlagsOf(fl, s) == Either(fl, GivenFlags(s))
    decreases |s|
  {
    if |s| > 0 {
      FlagsGiven(WithFlag(fl, s[0]), s[1..]);
      assert s == [s[0]] + s[1..];
      OneFlag(fl, s[0], s[1..]);
    }
  }

  lemma OneFlag(fl: Flags, c: char, s: seq<char>)
    requires IsFlag(c)
    ensures Either(WithFlag(fl, c), GivenFlags(s)) == Either(fl, GivenFlags([c] + s))
  {
    var t := [c] + s;
    InCons(c, s, t, '-');
    InCons(c, s, t, '+');
    InCons(c, s, t, ' ');
    InCons(c, s, t, '#');
    InCons(c, s, t, '0');
  }

  lemma InCons(c: char, s: seq<char>, t: seq<char>, d: char)
    requires t == [c] + s
    ensures d in t <==> d == c || d in s
  {
  }

  /** The arguments of a specification begin at word `arg`: first those for asterisks, then the value. */
  function ValueWord(x: Spec, arg: nat): nat {
    arg + (if x.width.StarWidth? then 1 else 0) + (if x.precision.StarPrecision? then 1 else 0)
  }

  function StandardWidth(env: Env, x: Spec, arg: nat): int {
    if x.width.StarWidth? then Int32(env.word(arg)) else x.width.n
  }

  /** Negative when there is none; a lone point is a precision of 0. */
  function StandardPrecision(env: Env, x: Spec, arg: nat): int {
    match x.precision
    case NoPrecision => -1
    case Point => 0
    case Precision(n) => n
    case StarPrecision => Int32(env.word(if x.width.StarWidth? then arg + 1 else arg))
  }

  lemma SpecReads(env: Env, x: Spec, arg: nat, f: seq<char>)
    requires SpecOk(x)
    ensures var d := SpecMeaning(env, x, arg, f);
            && d.flags == GivenFlags(x.flags) && d.min == StandardWidth(env, x, arg)
            && d.max == (if x.precision.Point? then -1 else StandardPrecision(env, x, arg))
            && d.arg == ValueWord(x, arg)
    ensures INT_MIN <= StandardWidth(env, x, arg) <= INT_MAX && INT_MIN <= StandardPrecision(env, x, arg) <= INT_MAX
  {
    hide FlagsOf, GivenFlags;
    FlagsGiven(NO_FLAGS, x.flags);
  }

  /** A specification alone. */
  lemma RenderAlone(env: Env, x: Spec)
    requires SpecOk(x) && x.conversion != 'w'
    ensures Render(env, SpecText(x), 0) == Converted(env, x.conversion, SpecMeaning(env, x, 0, []))
  {
    hide Render, SpecText, Converted, SpecMeaning;
    assert SpecText(x) + [] == SpecText(x);
    RenderSpec(env, x, [], 0);
    RenderNothing(env, Stars(x) + Words(x.conversion));
  }

  // ----- strings

  /** At most `precision` characters, if that is not negative, then padded. */
  function CutThenPad(value: seq<char>, width: int, precision: int, left: bool): seq<char> {
    var cut := if 0 <= precision < |value| then value[..precision] else value;
    var pad := Copies(' ', Abs(width) - |cut|);
    if left || width < 0 then cut + pad else pad + cut
  }

  function StandardString(env: Env, x: Spec, arg: nat): seq<char> {
    var value := StringAt(env, env.word(ValueWord(x, arg)) % TWO32);
    CutThenPad(value, StandardWidth(env, x, arg), StandardPrecision(env, x, arg), '-' in x.flags)
  }

  /** What `%s` prints. */
  lemma ConvertedString(env: Env, x: Spec, arg: nat, f: seq<char>)
    requires SpecOk(x) && x.conversion == 's' && env.word(ValueWord(x, arg)) % TWO32 != 0
    ensures var value := StringAt(env, env.word(ValueWord(x, arg)) % TWO32);
            var w, p := StandardWidth(env, x, arg), if x.precision.Point? then -1 else StandardPrecision(env, x, arg);
            Converted(env, 's', SpecMeaning(env, x, arg, f))
              == StrText(value, w, StrCut(|value|, w, p), GivenFlags(x.flags))
  {
    hide StrText, StrCut, GivenFlags, StandardWidth, StandardPrecision, StringAt, SpecMeaning;
    SpecReads(env, x, arg, f);
  }

  lemma WideEnough(value: seq<char>, width: nat, precision: nat, flags: Flags)
    requires width <= precision <= INT_MAX && |value| <= INT_MAX
    ensures StrText(value, width, precision, flags) == CutThenPad(value, width, precision, flags.minus)
  {
    hide Copies;
    var none: seq<char> := [];
    if |value| >= width {
      assert Copies(' ', width - |value|) == none;
      assert Copies(' ', width - precision) == none;
      assert value + none == value && none + value == value;
      assert FirstOf(value, precision) + none == FirstOf(value, precision) == none + FirstOf(value, precision);
    }
  }

  lemma WholeString(value: seq<char>, width: nat, flags: Flags)
    requires width <= INT_MAX && |value| <= INT_MAX
    ensures StrText(value, width, StrCut(|value|, width, -1), flags) == CutThenPad(value, width, -1, flags.minus)
  {
    hide Copies;
    if width <= |value| {
      WideEnough(value, width, |value|, flags);
    } else {
      assert Int32(width - |value|) == width - |value|;
    }
  }

  /** A value one longer than the precision shows the difference. */
  lemma TooNarrow(width: nat, precision: nat, flags: Flags)
    requires precision < width <= INT_MAX
    ensures var value := Copies('x', precision + 1);
            StrText(value, width, width, flags) != CutThenPad(value, width, precision, flags.minus)
  {
    hide Copies;
    var value := Copies('x', precision + 1);
    var pad, pad' := Copies(' ', width - |value|), Copies(' ', width - precision);
    CopiesAll('x', precision + 1, 0);
    CopiesAll('x', precision + 1, precision);
    CopiesAll(' ', width - precision, 0);
    CopiesAll(' ', width - precision, width - precision - 1);
    var printed, wanted := StrText(value, width, width, flags), CutThenPad(value, width, precision, flags.minus);
    if flags.minus {
      assert printed[precision] == 'x';
      assert wanted[precision] == pad'[0];
    } else {
      assert printed[width - precision - 1] == value[0];
      assert wanted[width - precision - 1] == pad'[width - precision - 1];
    }
  }

  /** Where the code cuts and pads every string as the standard does. */
  predicate CutsRight(width: int, precision: int, point: bool) {
    !point && 0 <= width && (precision == -1 || width <= precision)
  }

  lemma StringRight(value: seq<char>, width: int, precision: int, flags: Flags)
    requires |value| <= INT_MAX && INT_MIN <= width <= INT_MAX && precision <= INT_MAX
    requires CutsRight(width, precision, false)
    ensures StrText(value, width, StrCut(|value|, width, precision), flags)
         == CutThenPad(value, width, precision, flags.minus)
  {
    hide StrText, CutThenPad;
    if precision == -1 {
      WholeString(value, width, flags);
    } else {
      WideEnough(value, width, precision, flags);
    }
  }

  /** A string that shows the difference: an empty one for a negative width, "x" for a lone point or a
      negative precision, else one that is longer than the precision. */
  function Telling(width: int, precision: int, point: bool): seq<char> {
    if width < 0 && !point then [] else if point || precision < 0 then Copies('x', 1) else Copies('x', precision + 1)
  }

  lemma StringWrong(width: int, precision: int, point: bool, flags: Flags)
    requires INT_MIN < width <= INT_MAX && INT_MIN <= precision <= INT_MAX && (point ==> precision == -1)
    requires !CutsRight(width, precision, point)
    ensures var value := Telling(width, precision, point);
            StrText(value, width, StrCut(|value|, width, precision), flags)
            != CutThenPad(value, width, if point then 0 else precision, flags.minus)
  {
    var value := Telling(width, precision, point);
    if point {
      PointPrints(width, flags);
    } else if width < 0 {
      NothingPrinted(width, StrCut(0, width, precision), flags);
    } else if precision < 0 {
      NegativePrecision(width, precision, flags);
    } else {
      TooNarrow(width, precision, flags);
    }
  }

  lemma NothingPrinted(width: int, max: int, flags: Flags)
    requires INT_MIN < width < 0
    ensures StrText([], width, max, flags) == [] && |CutThenPad([], width, max, flags.minus)| == -width
  {
    hide Copies;
    assert Int32(width) == width;
    assert Copies(' ', width) == [];
    assert [] + Copies(' ', width) == [] == Copies(' ', width) + [];
  }

  /** Of "x" a precision of 0 leaves nothing, but a lone point all. */
  lemma PointPrints(width: int, flags: Flags)
    requires INT_MIN < width <= INT_MAX
    ensures 'x' in StrText(Copies('x', 1), width, StrCut(1, width, -1), flags)
    ensures 'x' !in CutThenPad(Copies('x', 1), width, 0, flags.minus)
  {
    hide Copies;
    var x := Copies('x', 1);
    CopiesAll('x', 1, 0);
    OnlyCopies(' ', Abs(width));
    assert x[..0] == [];
    assert CutThenPad(x, width, 0, flags.minus) == Copies(' ', Abs(width));
    XShown(width, flags);
  }

  lemma XShown(width: int, flags: Flags)
    requires INT_MIN < width <= INT_MAX
    ensures 'x' in StrText(Copies('x', 1), width, StrCut(1, width, -1), flags)
  {
    hide Copies;
    var x, max := Copies('x', 1), StrCut(1, width, -1);
    CopiesAll('x', 1, 0);
    assert Int32(width - 1) == width - 1;
    var pad := Copies(' ', width - 1);
    var r := StrText(x, width, max, flags);
    assert r[if flags.minus then 0 else |pad|] == 'x';
  }

  /** A negative precision other than -1 leaves nothing of a string. */
  lemma NegativePrecision(width: nat, precision: int, flags: Flags)
    requires width <= INT_MAX && precision < 0
    ensures StrText(Copies('x', 1), width, precision, flags) == []
    ensures CutThenPad(Copies('x', 1), width, precision, flags.minus) != []
  {
    hide Copies;
  }

  /** The conversion prints what the standard asks for whatever string it is given; asterisks stand for the
      numbers `w` and `p`. */
  ghost predicate PrintsStandard(x: Spec, w: int, p: int) {
    forall env: Env :: AString(env, x) && WidthOf(env, x, 0) == w && PrecisionOf(env, x, 0) == p ==>
      Render(env, SpecText(x), 0) == StandardString(env, x, 0)
  }

  /** The argument is the address of a string of `int` length. */
  ghost predicate AString(env: Env, x: Spec) {
    var addr := env.word(ValueWord(x, 0)) % TWO32;
    addr != 0 && |StringAt(env, addr)| <= INT_MAX
  }

  /** The numbers that `x` can have as width and precision. */
  ghost predicate Numbered(x: Spec, w: int, p: int) {
    && INT_MIN < w <= INT_MAX && INT_MIN <= p <= INT_MAX
    && (x.width.Width? ==> w == x.width.n)
    && (x.precision.Precision? ==> p == x.precision.digits)
    && (x.precision.NoPrecision? || x.precision.Point? ==> p == -1)
  }

  /** An argument list that holds the numbers and then the address of `value`. */
  function Holding(x: Spec, w: int, p: int, value: seq<char>): Env {
    Env((i: nat) => if i >= ValueWord(x, 0) then 1 else if i == 0 && x.width.StarWidth? then w else p,
        _ => value, (_, _, _, _, _) => [])
  }

  lemma {:induction false} PlainCopies(c: char, n: nat)
    requires c != NUL
    ensures CString(Copies(c, n)) == Copies(c, n) && NUL !in Copies(c, n)
  {
    if n > 0 {
      PlainCopies(c, n - 1);
    }
    CStringWhole(Copies(c, n));
  }

  lemma HoldsString(x: Spec, w: int, p: int, value: seq<char>)
    requires Numbered(x, w, p) && SpecOk(x) && CString(value) == value && |value| <= INT_MAX
    ensures var env := Holding(x, w, p, value);
            && AString(env, x) && WidthOf(env, x, 0) == w && PrecisionOf(env, x, 0) == p
            && StringAt(env, env.word(ValueWord(x, 0)) % TWO32) == value
  {
    hide Int32, CString, SpecOk;
    HeldWords(x, w, p, value);
    assert Int32(w) == w && Int32(p) == p;
  }

  lemma HeldWords(x: Spec, w: int, p: int, value: seq<char>)
    ensures var env, word := Holding(x, w, p, value), Holding(x, w, p, value).word;
            && word(ValueWord(x, 0)) == 1 && env.text == (_ => value)
            && (x.width.StarWidth? ==> word(0) == w)
            && (x.precision.StarPrecision? ==> word(WidthStars(x)) == p)
  {
  }

  /** `%s` prints every string as the standard asks exactly where the width is not negative, and no precision
      is given, or one that the width does not exceed: a width larger than the precision overrides it, a lone
      point takes the whole string, a negative width is no left justification, and a negative precision (but
      -1) leaves nothing.  With a length modifier it would not be a string of bytes. */
  lemma StringIff(x: Spec, w: int, p: int)
    requires SpecOk(x) && x.conversion == 's' && x.modifier == [] && Numbered(x, w, p)
    ensures PrintsStandard(x, w, p) <==> (!x.precision.Point? && 0 <= w && (p == -1 || w <= p))
  {
    hide Render, SpecText, StrText, CutThenPad, StringAt, Copies, SpecOk, GivenFlags, StrCut, SpecMeaning;
    var point := x.precision.Point?;
    if CutsRight(w, p, point) {
      forall env: Env | AString(env, x) && WidthOf(env, x, 0) == w && PrecisionOf(env, x, 0) == p
        ensures Render(env, SpecText(x), 0) == StandardString(env, x, 0)
      {
        RenderAlone(env, x);
        ConvertedString(env, x, 0, []);
        StringRight(StringAt(env, env.word(ValueWord(x, 0)) % TWO32), w, p, GivenFlags(x.flags));
        MinusGiven(x.flags);
      }
    } else {
      var value := Telling(w, p, point);
      PlainTelling(w, p, point);
      TellingShort(w, p, point);
      var env := Holding(x, w, p, value);
      HoldsString(x, w, p, value);
      RenderAlone(env, x);
      ConvertedString(env, x, 0, []);
      StringWrong(w, p, point, GivenFlags(x.flags));
      MinusGiven(x.flags);
      assert Render(env, SpecText(x), 0) != StandardString(env, x, 0);
    }
  }

  lemma MinusGiven(s: seq<char>)
    ensures GivenFlags(s).minus == ('-' in s) && !GivenFlags(s).up
  {
  }

  lemma TellingShort(w: int, p: int, point: bool)
    requires !CutsRight(w, p, point) && w <= INT_MAX
    ensures |Telling(w, p, point)| <= INT_MAX
  {
    hide Copies;
  }

  lemma PlainTelling(w: int, p: int, point: bool)
    ensures CString(Telling(w, p, point)) == Telling(w, p, point)
  {
    PlainCopies('x', 1);
    PlainCopies('x', Max(p, 0) + 1);
    CStringWhole([]);
  }

  /** A null pointer prints as `<NULL>` exactly when the bytes at address 0 are a string of six characters or
      more: without a precision their number is the cut. */
  lemma NullPrintsIff(env: Env)
    requires env.word(0) % TWO32 == 0 && |StringAt(env, 0)| <= INT_MAX
    ensures Render(env, "%s", 0) == "<NULL>"[..if |StringAt(env, 0)| < 6 then |StringAt(env, 0)| else 6]
    ensures Render(env, "%s", 0) == "<NULL>" <==> |StringAt(env, 0)| >= 6
  {
    hide Render, StringAt, StrText, StrCut;
    var x := Spec([], NO_WIDTH, NoPrecision, [], 's');
    assert SpecText(x) == "%s";
    RenderAlone(env, x);
    NullText(|StringAt(env, 0)|);
  }

  lemma NullText(n: nat)
    ensures StrText("<NULL>", 0, StrCut(n, 0, -1), NO_FLAGS) == "<NULL>"[..if n < 6 then n else 6]
  {
    CopiesNone(' ', -6);
    var s: seq<char> := "<NULL>";
    assert [] + s == s && Int32(-6) == -6;
  }

  // ----- integers, and their length modifiers

  predicate IsIntConversion(c: char) { c == 'd' || c == 'i' || c == 'o' || c == 'u' || c == 'x' || c == 'X' }

  /** The length modifiers that the standard has for integers. */
  predicate IsLength(m: seq<char>) {
    m == [] || m == "hh" || m == "h" || m == "l" || m == "ll" || m == "j" || m == "z" || m == "t"
  }

  /** A specification of an integer as the standard has it. */
  ghost predicate IntSpec(x: Spec) {
    && (forall i :: 0 <= i < |x.flags| ==> IsFlag(x.flags[i]))
    && (x.width.Width? ==> x.width.n <= INT_MAX) && (x.precision.Precision? ==> x.precision.digits <= INT_MAX)
    && IsLength(x.modifier) && IsIntConversion(x.conversion)
  }

  function ConversionBase(c: char): (b: nat)
    ensures 8 <= b <= 16
  {
    if c == 'o' then 8 else if c == 'x' || c == 'X' then 16 else 10
  }

  function ConversionFlags(c: char, fl: Flags): Flags {
    if c == 'd' || c == 'i' then fl else if c == 'X' then fl.(up := true, unsigned := true) else fl.(unsigned := true)
  }

  function SpecFlags(x: Spec): Flags { ConversionFlags(x.conversion, GivenFlags(x.flags)) }

  function Wrapped(n: int, modulus: nat, signed: bool): int
    requires modulus > 0
  {
    var u := n % modulus;
    if signed && u >= modulus / 2 then u - modulus else u
  }

  /** The value of the argument on this machine: char has 8 bits, short 16, int, long, size_t and
      ptrdiff_t 32, long long and intmax_t 64 in two argument words. */
  function StandardValue(w0: int, w1: int, m: seq<char>, signed: bool): int {
    if m == "hh" then Wrapped(w0, 0x100, signed)
    else if m == "h" then Wrapped(w0, 0x1_0000, signed)
    else if m == "ll" || m == "j" then Wrapped(w0 % TWO32 + TWO32 * (w1 % TWO32), TWO32 * TWO32, signed)
    else Wrapped(w0, TWO32, signed)
  }

  function ValueOf(env: Env, x: Spec, arg: nat): int {
    var n := ValueWord(x, arg);
    StandardValue(env.word(n), env.word(n + 1), x.modifier, !SpecFlags(x).unsigned)
  }

  /** What the standard asks for, with arguments from word `arg` on. */
  function StandardText(env: Env, x: Spec, arg: nat): seq<char> {
    StandardInt(ValueOf(env, x, arg), ConversionBase(x.conversion), StandardWidth(env, x, arg),
                StandardPrecision(env, x, arg), SpecFlags(x))
  }

  lemma WordRange(w: int)
    ensures INT_MIN <= Int32(w) <= INT_MAX
  {
  }

  /** Where a modifier makes a difference: `hh`, `j`, `z` and `t` are not known; `h` does not narrow the
      argument to a short; of a long long only the low word is printed. */
  ghost predicate LengthDeparts(w0: int, w1: int, m: seq<char>, signed: bool) {
    if m == "hh" || m == "j" || m == "z" || m == "t" then true
    else if m == "h" then (if signed then !(-0x8000 <= Int32(w0) < 0x8000) else w0 % TWO32 >= 0x1_0000)
    else if m == "ll" then w1 % TWO32 != (if signed && Int32(w0) < 0 then TWO32 - 1 else 0)
    else false
  }

  ghost predicate SpecDeparts(env: Env, x: Spec, arg: nat) {
    var n := ValueWord(x, arg);
    || LengthDeparts(env.word(n), env.word(n + 1), x.modifier, !SpecFlags(x).unsigned)
    || Departs(ValueOf(env, x, arg), ConversionBase(x.conversion), StandardWidth(env, x, arg),
               StandardPrecision(env, x, arg), SpecFlags(x))
  }

  /** The padding of a field is an `int`, as it is for every width that is not negative; otherwise the
      subtraction overflows, for which C has no meaning. */
  ghost predicate PaddingFits(env: Env, x: Spec, arg: nat) {
    var v := Printed(Int32(env.word(ValueWord(x, arg))), SpecFlags(x));
    INT_MIN <= StandardWidth(env, x, arg) - |Sign(v, SpecFlags(x))|
               - Max(StandardPrecision(env, x, arg), |Digits(Abs(v), ConversionBase(x.conversion), SpecFlags(x).up)|)
  }

  lemma WordValue(w: int)
    ensures Wrapped(w, TWO32, true) == Int32(w) && Wrapped(w, TWO32, false) == w % TWO32 == Int32(w) % TWO32
  {
    var q := w / TWO32;
    assert w == TWO32 * q + w % TWO32;
  }

  lemma Remainder(w: int, k: int, t: int)
    requires w == 0x1_0000 * k + t && 0 <= t < 0x1_0000
    ensures w % 0x1_0000 == t
  {
  }

  lemma ShortPart(w: int)
    ensures w % 0x1_0000 == w % TWO32 % 0x1_0000
    ensures Int32(w) == if w % TWO32 < 0x8000_0000 then w % TWO32 else w % TWO32 - TWO32
  {
    hide Int32;
    WordSign(w);
    var u := w % TWO32;
    Remainder(w, 0x1_0000 * (w / TWO32) + u / 0x1_0000, u % 0x1_0000);
  }

  lemma ShortRange(u: int)
    requires 0 <= u < TWO32
    ensures u % 0x1_0000 == u <==> u < 0x1_0000
    ensures 0x8000_0000 <= u ==> (u % 0x1_0000 - 0x1_0000 == u - TWO32 <==> 0xFFFF_0000 <= u)
  {
    var r := u / 0x1_0000;
    assert u == 0x1_0000 * r + u % 0x1_0000;
    assert r <= 0xFFFF;
  }

  lemma ShortValue(w: int)
    ensures Wrapped(w, 0x1_0000, true) == Int32(w) <==> -0x8000 <= Int32(w) < 0x8000
    ensures Wrapped(w, 0x1_0000, false) == w % TWO32 <==> w % TWO32 < 0x1_0000
  {
    hide Int32;
    ShortPart(w);
    ShortRange(w % TWO32);
  }

  lemma LongValue(w0: int, w1: int)
    ensures var n := w0 % TWO32 + TWO32 * (w1 % TWO32);
            && (Wrapped(n, TWO32 * TWO32, true) == Int32(w0)
                <==> w1 % TWO32 == (if Int32(w0) < 0 then TWO32 - 1 else 0))
            && (Wrapped(n, TWO32 * TWO32, false) == w0 % TWO32 <==> w1 % TWO32 == 0)
  {
    var lo, hi := w0 % TWO32, w1 % TWO32;
    var n := lo + TWO32 * hi;
    assert 0 <= n < TWO32 * TWO32;
    assert Int32(w0) == if lo < 0x8000_0000 then lo else lo - TWO32;
  }

  /** The code takes the argument for the value that the standard gives it exactly where the modifier
      makes no difference. */
  lemma LengthIff(w0: int, w1: int, m: seq<char>, flags: Flags)
    requires m == [] || m == "h" || m == "l" || m == "ll"
    ensures StandardValue(w0, w1, m, !flags.unsigned) == Printed(Int32(w0), flags)
            <==> !LengthDeparts(w0, w1, m, !flags.unsigned)
  {
    hide Wrapped, Int32;
    WordValue(w0);
    ShortValue(w0);
    LongValue(w0, w1);
  }

  lemma ConvertedInt(env: Env, c: char, d: Directive)
    requires IsIntConversion(c)
    ensures Converted(env, c, d)
         == IntText(Int32(env.word(d.arg)), ConversionBase(c), d.min, d.max, ConversionFlags(c, d.flags))
    ensures Words(c) == 1 && c != 'w' && IsConversion(c)
  {
    hide IntText, Int32;
  }

  lemma PointIsZero(value: int, base: nat, min: int, flags: Flags)
    requires 8 <= base <= 16
    ensures IntText(value, base, min, -1, flags) == IntText(value, base, min, 0, flags)
  {
    hide Digits, Copies, SpacePad, Sign, Magnitude;
  }

  predicate KnownModifier(m: seq<char>) { m == [] || m == "h" || m == "l" || m == "ll" }

  /** What is printed for a modifier that the code knows. */
  lemma KnownPrints(env: Env, x: Spec, arg: nat, f: seq<char>)
    requires IntSpec(x) && KnownModifier(x.modifier)
    ensures SpecOk(x) && x.conversion != 'w' && Words(x.conversion) == 1
    ensures Converted(env, x.conversion, SpecMeaning(env, x, arg, f))
         == IntText(Int32(env.word(ValueWord(x, arg))), ConversionBase(x.conversion), StandardWidth(env, x, arg),
                    StandardPrecision(env, x, arg), SpecFlags(x))
  {
    hide IntText, GivenFlags, Converted, ConversionFlags, ConversionBase, Int32, StandardWidth, StandardPrecision, ValueWord,
      SpecMeaning;
    ConvertedInt(env, x.conversion, SpecMeaning(env, x, arg, f));
    SpecReads(env, x, arg, f);
    if x.precision.Point? {
      PointIsNone(env, x, arg);
      PointIsZero(Int32(env.word(ValueWord(x, arg))), ConversionBase(x.conversion), StandardWidth(env, x, arg),
                  SpecFlags(x));
    }
  }

  lemma PointIsNone(env: Env, x: Spec, arg: nat)
    requires x.precision.Point?
    ensures StandardPrecision(env, x, arg) == 0
  {
  }

  lemma NoOverflow(v: int, base: nat, width: nat, precision: int, flags: Flags)
    requires 8 <= base <= 16 && precision <= INT_MAX && Abs(v) < TWO32
    ensures INT_MIN <= width - |Sign(v, flags)| - Max(precision, |Digits(Abs(v), base, flags.up)|)
  {
    hide Digits, Sign;
    DigitsFit(Abs(v), base, flags.up);
  }

  lemma PrintedFits(value: int, flags: Flags)
    requires INT_MIN <= value <= INT_MAX
    ensures Abs(Printed(value, flags)) < TWO32
  {
  }

  lemma ValuePositive(w0: int, w1: int, m: seq<char>, flags: Flags)
    ensures flags.unsigned ==> StandardValue(w0, w1, m, !flags.unsigned) >= 0
  {
  }

  lemma PaddingFitsWidth(env: Env, x: Spec, arg: nat)
    requires SpecOk(x) && StandardWidth(env, x, arg) >= 0
    ensures PaddingFits(env, x, arg)
  {
    hide Digits, Sign, Int32, Printed, StandardWidth, StandardPrecision, SpecFlags, ConversionBase, ValueWord, SpecMeaning;
    SpecReads(env, x, arg, []);
    var value := Int32(env.word(ValueWord(x, arg)));
    WordRange(env.word(ValueWord(x, arg)));
    PrintedFits(value, SpecFlags(x));
    NoOverflow(Printed(value, SpecFlags(x)), ConversionBase(x.conversion), StandardWidth(env, x, arg),
               StandardPrecision(env, x, arg), SpecFlags(x));
  }

  /** A conversion with a modifier that the code knows, anywhere in a format. */
  lemma KnownIff(env: Env, x: Spec, arg: nat, f: seq<char>)
    requires IntSpec(x) && KnownModifier(x.modifier) && PaddingFits(env, x, arg)
    ensures Converted(env, x.conversion, SpecMeaning(env, x, arg, f)) == StandardText(env, x, arg)
            <==> !SpecDeparts(env, x, arg)
  {
    hide IntText, StandardInt, Departs, SpecFlags, StandardValue, Printed, LengthDeparts, ConversionBase, Converted,
      SignedReading, Int32, StandardWidth, StandardPrecision, ValueWord, SpecMeaning, Digits, Sign;
    var n := ValueWord(x, arg);
    var value, v := Int32(env.word(n)), ValueOf(env, x, arg);
    var base, fl := ConversionBase(x.conversion), SpecFlags(x);
    var width, precision := StandardWidth(env, x, arg), StandardPrecision(env, x, arg);
    KnownPrints(env, x, arg, f);
    SpecReads(env, x, arg, f);
    WordRange(env.word(n));
    LengthIff(env.word(n), env.word(n + 1), x.modifier, fl);
    if LengthDeparts(env.word(n), env.word(n + 1), x.modifier, !fl.unsigned) {
      ValuePositive(env.word(n), env.word(n + 1), x.modifier, fl);
      PrintedReads(value, base, width, precision, fl);
      StandardReads(v, base, width, precision, fl);
    } else {
      IntFieldIff(value, base, width, precision, fl);
    }
  }

  /** A modifier that the code does not know is read as a conversion that prints nothing, and the
      conversion character itself is copied. */
  lemma UnknownPrints(env: Env, x: Spec)
    requires IntSpec(x) && (x.modifier == "hh" || x.modifier == "j" || x.modifier == "z" || x.modifier == "t")
    ensures Render(env, SpecText(x), 0) == [x.conversion]
  {
    hide Render, SpecText, SpecMeaning, IntText;
    var c := x.modifier[|x.modifier| - 1];
    var y := x.(modifier := x.modifier[..|x.modifier| - 1], conversion := c);
    assert "hh"[..1] == ['h'] && "j"[..0] == [] && "z"[..0] == [] && "t"[..0] == [];
    assert SpecOk(y);
    assert SpecText(y) + [x.conversion] == SpecText(x) by { SpecJoin(x, y); }
    RenderSpec(env, y, [x.conversion], 0);
    LiteralText(env, [x.conversion], [], Stars(y));
    RenderNothing(env, Stars(y));
    assert [x.conversion] + [] == [x.conversion];
  }

  lemma SpecJoin(x: Spec, y: Spec)
    requires |x.modifier| > 0
    requires y == x.(modifier := x.modifier[..|x.modifier| - 1], conversion := x.modifier[|x.modifier| - 1])
    ensures SpecText(y) + [x.conversion] == SpecText(x)
  {
    hide WidthText, PrecisionText;
    assert y.modifier + [y.conversion] == x.modifier;
    assert x.flags + (WidthText(x.width) + (PrecisionText(x.precision) + x.modifier)) + [x.conversion]
        == x.flags + (WidthText(x.width) + (PrecisionText(x.precision) + (x.modifier + [x.conversion])));
  }

  /** No integer is written as the letter of its conversion. */
  lemma NotTheLetter(v: int, width: int, precision: int, flags: Flags, c: char)
    requires IsIntConversion(c)
    ensures StandardInt(v, ConversionBase(c), width, precision, flags) != [c]
  {
    hide Field, StandardInt, Significant, Sign, Prefix, Digits, Numeral, StandardParts, ConversionBase;
    var base := ConversionBase(c);
    var front := Sign(v, flags) + Prefix(v, base, flags);
    var p := StandardParts(v, |Digits(Abs(v), base, flags.up)|, |front|, base, width, precision, flags);
    StandardField(v, base, width, precision, flags);
    SignificantChars(v, base, flags.up);
    var s := Significant(v, base, flags.up);
    if Field(p, front, s) == [c] {
      LoneCharacter(p, front, s, c);
      NotFront(v, base, flags, c);
      NotDigit(s, base, c);
    }
  }

  lemma NotFront(v: int, base: nat, flags: Flags, c: char)
    requires IsIntConversion(c)
    ensures Sign(v, flags) + Prefix(v, base, flags) != [c]
  {
    hide Prefix;
    if |Prefix(v, base, flags)| == 0 {
      assert Sign(v, flags) + Prefix(v, base, flags) == Sign(v, flags);
    }
  }

  lemma NotDigit(s: seq<char>, base: nat, c: char)
    requires IsIntConversion(c) && base == ConversionBase(c)
    requires forall i :: 0 <= i < |s| ==> IsHex(s[i]) && (base <= 10 ==> IsDigit(s[i]))
    ensures s != [c]
  {
    if |s| == 1 {
      assert s[0] != c;
    }
  }

  lemma SignificantChars(v: int, base: nat, up: bool)
    requires 8 <= base <= 16
    ensures forall i :: 0 <= i < |Significant(v, base, up)| ==>
              IsHex(Significant(v, base, up)[i]) && (base <= 10 ==> IsDigit(Significant(v, base, up)[i]))
  {
    hide Digits;
    if v != 0 {
      forall i | 0 <= i < |Significant(v, base, up)|
        ensures IsHex(Significant(v, base, up)[i]) && (base <= 10 ==> IsDigit(Significant(v, base, up)[i]))
      {
        NumeralChars(Abs(v), base, up, i);
      }
    }
  }

  lemma LoneCharacter(p: Parts, front: seq<char>, s: seq<char>, c: char)
    requires Field(p, front, s) == [c]
    ensures c == ' ' || c == '0' || front == [c] || s == [c]
  {
    hide Copies;
    var f := Field(p, front, s);
    assert |f| == p.lead + |front| + p.zeros + |s| + p.trail;
    if p.lead > 0 {
      CopiesAll(' ', p.lead, 0);
      assert f[0] == Copies(' ', p.lead)[0];
    } else if |front| > 0 {
      assert f[0] == front[0];
    } else if p.zeros > 0 {
      CopiesAll('0', p.zeros, 0);
      assert f[0] == Copies('0', p.zeros)[0];
    } else if |s| > 0 {
      assert f[0] == s[0];
    } else {
      CopiesAll(' ', p.trail, 0);
      assert f[0] == Copies(' ', p.trail)[0];
    }
  }

  /** A specification of an integer prints what the standard asks for exactly where neither its length
      modifier nor its flags, width and precision make the code depart. */
  lemma RenderIntIff(env: Env, x: Spec)
    requires IntSpec(x) && (x.width.StarWidth? ==> PaddingFits(env, x, 0))
    ensures Render(env, SpecText(x), 0) == StandardText(env, x, 0) <==> !SpecDeparts(env, x, 0)
  {
    hide Render, SpecText, StandardInt, Departs, ValueOf, SpecFlags, Converted, SpecMeaning, StandardPrecision, ValueWord,
      PaddingFits;
    if KnownModifier(x.modifier) {
      KnownPrints(env, x, 0, []);
      RenderAlone(env, x);
      if !x.width.StarWidth? {
        PaddingFitsWidth(env, x, 0);
      }
      KnownIff(env, x, 0, []);
    } else {
      UnknownPrints(env, x);
      NotTheLetter(ValueOf(env, x, 0), StandardWidth(env, x, 0), StandardPrecision(env, x, 0), SpecFlags(x), x.conversion);
    }
  }

  /** The characters of an integer conversion are spaces, a sign and the digits of its base: `a` to `f` for
      `%x`, `A` to `F` for `%X`. */
  lemma RenderLetters(env: Env, x: Spec, c: char)
    requires IntSpec(x) && KnownModifier(x.modifier) && c in Render(env, SpecText(x), 0)
    ensures c == ' ' || c == '+' || c == '-' || '0' <= c <= '9'
            || (x.conversion == 'x' && 'a' <= c <= 'f') || (x.conversion == 'X' && 'A' <= c <= 'F')
  {
    hide Render, SpecText, IntText, Converted, SpecMeaning, StandardWidth, StandardPrecision, ValueWord, Int32, IsFlag,
      GivenFlags;
    KnownPrints(env, x, 0, []);
    RenderAlone(env, x);
    MinusGiven(x.flags);
    FieldLetters(Int32(env.word(ValueWord(x, 0))), ConversionBase(x.conversion), StandardWidth(env, x, 0),
                 StandardPrecision(env, x, 0), SpecFlags(x), c);
    if c in Letters(SpecFlags(x).up)[..ConversionBase(x.conversion)] {
      LetterRange(c, ConversionBase(x.conversion), SpecFlags(x).up);
    }
  }

  lemma LetterRange(c: char, base: nat, up: bool)
    requires base <= 16 && c in Letters(up)[..base]
    ensures '0' <= c <= '9' || (base > 10 && (if up then 'A' <= c <= 'F' else 'a' <= c <= 'f'))
  {
    var i :| 0 <= i < base && Letters(up)[..base][i] == c;
    assert Letters(up)[i] == c;
  }

  // ----- characters, percent signs and pointers

  /** A character, padded to the width. */
  function StandardChar(env: Env, x: Spec, arg: nat): seq<char> {
    CutThenPad([(env.word(ValueWord(x, arg)) % 256) as char], StandardWidth(env, x, arg), -1, '-' in x.flags)
  }

  /** `%c` prints what the standard asks for exactly where the width is at most 1: it does not pad. */
  lemma CharIff(env: Env, x: Spec, arg: nat, f: seq<char>)
    requires SpecOk(x) && x.conversion == 'c' && x.modifier == []
    ensures Converted(env, 'c', SpecMeaning(env, x, arg, f)) == StandardChar(env, x, arg)
            <==> -1 <= StandardWidth(env, x, arg) <= 1
  {
    hide SpecMeaning, StandardWidth, ValueWord, Copies;
    SpecReads(env, x, arg, f);
    var w := StandardWidth(env, x, arg);
    if -1 <= w <= 1 {
      CopiesNone(' ', Abs(w) - 1);
      var one := [(env.word(ValueWord(x, arg)) % 256) as char];
      assert one + [] == one == [] + one;
    } else {
      assert |StandardChar(env, x, arg)| == Abs(w);
    }
  }

  /** `%%` prints a percent sign and takes no argument. */
  lemma PercentPrints(env: Env, f: seq<char>, arg: nat)
    ensures Render(env, "%%" + f, arg) == "%" + Render(env, f, arg)
  {
    hide Render;
    var x := Spec([], NO_WIDTH, NoPrecision, [], '%');
    assert SpecText(x) == "%%";
    RenderSpec(env, x, f, arg);
  }

  /** Conversions of doubles take two argument words, but only `%f` prints; `%n` takes one and prints nothing. */
  lemma DoublesTakeTwo(env: Env, c: char, f: seq<char>, arg: nat)
    requires c == 'f' || c == 'e' || c == 'E' || c == 'g' || c == 'G'
    ensures Render(env, ['%', c] + f, arg)
         == (if c == 'f' then env.float(env.word(arg), env.word(arg + 1), 0, -1, NO_FLAGS) else [])
              + Render(env, f, arg + 2)
    ensures Render(env, "%n" + f, arg) == Render(env, f, arg + 1)
  {
    hide Render;
    var x, y := Spec([], NO_WIDTH, NoPrecision, [], c), Spec([], NO_WIDTH, NoPrecision, [], 'n');
    assert SpecText(x) == ['%', c] && SpecText(y) == "%n";
    RenderSpec(env, x, f, arg);
    RenderSpec(env, y, f, arg);
    var r := Render(env, f, arg + 1);
    assert [] + r == r;
  }

  /** `%p` prints a plain hexadecimal number exactly for addresses in the lower half of memory: the
      conversion is not marked unsigned. */
  lemma PointerPlainIff(env: Env)
    ensures var addr := env.word(0) % TWO32;
            Render(env, "%p", 0) == Numeral(addr, 16, false) <==> addr < 0x8000_0000
  {
    hide Numeral, Digits, Render;
    DigitsAreNumeral(env.word(0) % TWO32, 16, false);
    PointerDigitsIff(env);
  }

  // ----- whole formats

  /** A format in pieces: text, a percent sign, a conversion. */
  datatype Piece = Literal(text: seq<char>) | Percent | Conversion(spec: Spec)

  function PieceText(p: Piece): seq<char> {
    match p
    case Literal(text) => text
    case Percent => "%%"
    case Conversion(x) => SpecText(x)
  }

  function FormatText(ps: seq<Piece>): seq<char> {
    if |ps| == 0 then [] else PieceText(ps[0]) + FormatText(ps[1..])
  }

  /** Conversions of integers, and of strings and characters of bytes. */
  ghost predicate PieceOk(p: Piece) {
    match p
    case Literal(text) => '%' !in text && NUL !in text
    case Percent => true
    case Conversion(x) => IntSpec(x) || (SpecOk(x) && (x.conversion == 's' || x.conversion == 'c') && x.modifier == [])
  }

  predicate TwoWords(x: Spec) { IsIntConversion(x.conversion) && (x.modifier == "ll" || x.modifier == "j") }

  /** The argument words of a piece. */
  function PieceWords(p: Piece): nat {
    match p
    case Conversion(x) => ValueWord(x, 0) + if TwoWords(x) then 2 else 1
    case _ => 0
  }

  function StandardPiece(env: Env, p: Piece, arg: nat): seq<char> {
    match p
    case Literal(text) => text
    case Percent => "%"
    case Conversion(x) =>
      if x.conversion == 's' then StandardString(env, x, arg)
      else if x.conversion == 'c' then StandardChar(env, x, arg)
      else StandardText(env, x, arg)
  }

  /** What the standard asks for. */
  function StandardOutput(env: Env, ps: seq<Piece>, arg: nat): seq<char> {
    if |ps| == 0 then [] else StandardPiece(env, ps[0], arg) + StandardOutput(env, ps[1..], arg + PieceWords(ps[0]))
  }

  /** Where the code departs in a piece; a `%s` wants a string. */
  ghost predicate PieceDeparts(env: Env, p: Piece, arg: nat) {
    match p
    case Conversion(x) =>
      if x.conversion == 's' then
        var addr := env.word(ValueWord(x, arg)) % TWO32;
        || addr == 0 || |StringAt(env, addr)| > INT_MAX
        || !CutsRight(StandardWidth(env, x, arg), StandardPrecision(env, x, arg), x.precision.Point?)
      else if x.conversion == 'c' then !(-1 <= StandardWidth(env, x, arg) <= 1)
      else !PaddingFits(env, x, arg) || SpecDeparts(env, x, arg)
    case _ => false
  }

  /** No piece departs, and nothing follows a long long, of which the code takes one word only. */
  ghost predicate Conforms(env: Env, ps: seq<Piece>, arg: nat) {
    |ps| > 0 ==>
    && PieceOk(ps[0]) && !PieceDeparts(env, ps[0], arg)
    && (ps[0].Conversion? && TwoWords(ps[0].spec) ==> |ps| == 1)
    && Conforms(env, ps[1..], arg + PieceWords(ps[0]))
  }

  /** One conversion, and the format behind it. */
  lemma ConversionConforms(env: Env, x: Spec, f: seq<char>, arg: nat)
    requires PieceOk(Conversion(x)) && !PieceDeparts(env, Conversion(x), arg)
    ensures Render(env, SpecText(x) + f, arg)
         == StandardPiece(env, Conversion(x), arg) + Render(env, f, ValueWord(x, arg) + 1)
  {
    hide Render, SpecText, Converted, SpecMeaning, StandardWidth, StandardPrecision, StandardText, StandardChar, CutsRight,
      PaddingFits, SpecDeparts, StandardString;
    if x.conversion == 's' {
      RenderSpec(env, x, f, arg);
      StringConforms(env, x, f, arg);
    } else if x.conversion == 'c' {
      RenderSpec(env, x, f, arg);
      CharIff(env, x, arg, f);
    } else {
      KnownLength(env, x, arg);
      KnownPrints(env, x, arg, f);
      RenderSpec(env, x, f, arg);
      KnownIff(env, x, arg, f);
    }
  }

  lemma KnownLength(env: Env, x: Spec, arg: nat)
    requires IntSpec(x) && !SpecDeparts(env, x, arg)
    ensures KnownModifier(x.modifier)
  {
  }

  lemma StringConforms(env: Env, x: Spec, f: seq<char>, arg: nat)
    requires SpecOk(x) && x.conversion == 's' && !PieceDeparts(env, Conversion(x), arg)
    ensures Converted(env, 's', SpecMeaning(env, x, arg, f)) == StandardString(env, x, arg)
  {
    hide StrText, StrCut, CutThenPad, Converted, SpecMeaning, StringAt, StandardWidth, ValueWord, SpecOk, GivenFlags;
    SpecReads(env, x, arg, f);
    ConvertedString(env, x, arg, f);
    StringRight(StringAt(env, env.word(ValueWord(x, arg)) % TWO32), StandardWidth(env, x, arg),
                StandardPrecision(env, x, arg), GivenFlags(x.flags));
    MinusGiven(x.flags);
  }

  /** A whole format prints what the standard asks for, piece by piece and argument by argument, where no
      piece departs. */
  lemma {:induction false} FormatConforms(env: Env, ps: seq<Piece>, arg: nat)
    requires Conforms(env, ps, arg)
    ensures Render(env, FormatText(ps), arg) == StandardOutput(env, ps, arg)
    decreases |ps|
  {
    hide Render, SpecText, StandardPiece, PieceDeparts, ValueWord;
    if |ps| == 0 {
      RenderNothing(env, arg);
    } else {
      var f := FormatText(ps[1..]);
      FormatConforms(env, ps[1..], arg + PieceWords(ps[0]));
      match ps[0]
      case Literal(text) => PlainConforms(env, ps[0], text, f, arg);
      case Percent => PercentPrints(env, f, arg); LiteralPiece(env, ps[0], "%", arg);
      case Conversion(x) =>
        ConversionConforms(env, x, f, arg);
        WordsBehind(x, arg);
        if TwoWords(x) {
          RenderNothing(env, ValueWord(x, arg) + 1);
          RenderNothing(env, arg + PieceWords(ps[0]));
        }
    }
  }

  lemma WordsBehind(x: Spec, arg: nat)
    ensures !TwoWords(x) ==> ValueWord(x, arg) + 1 == arg + PieceWords(Conversion(x))
  {
  }

  lemma LiteralPiece(env: Env, p: Piece, text: seq<char>, arg: nat)
    requires p == Literal(text) || (p == Percent && text == "%")
    ensures StandardPiece(env, p, arg) == text
  {
  }

  lemma PlainConforms(env: Env, p: Piece, text: seq<char>, f: seq<char>, arg: nat)
    requires p == Literal(text) && PieceOk(p)
    ensures Render(env, PieceText(p) + f, arg) == StandardPiece(env, p, arg) + Render(env, f, arg)
  {
    LiteralText(env, text, f, arg);
  }

  // ----- inputs on which the code departs

  /** The 0 flag beside a `-` flag: 7 is padded with zeros where the standard pads with spaces behind. */
  lemma LeftZeroFails()
    ensures Departs(7, 10, 5, -1, NO_FLAGS.(minus := true, zero := true))
    ensures IntText(7, 10, 5, -1, NO_FLAGS.(minus := true, zero := true)) == "00007"
    ensures StandardInt(7, 10, 5, -1, NO_FLAGS.(minus := true, zero := true)) == "7    "
  {
    var fl := NO_FLAGS.(minus := true, zero := true);
    assert Digits(7, 10, false) == ['7'] == Numeral(7, 10, false);
    assert Copies('0', 4) == "0000" && Copies(' ', 4) == "    " by {
      assert Copies('0', 2) == "00" && Copies(' ', 2) == "  ";
    }
    assert Copies('0', 0) == [];
  }

  /** `%hd` of 70000 prints 70000, where the standard asks for the short 4464. */
  lemma ShortFails(env: Env)
    requires env.word(0) == 70000
    ensures var x := Spec([], NO_WIDTH, NoPrecision, "h", 'd');
            && SpecText(x) == "%hd" && SpecDeparts(env, x, 0)
            && Render(env, "%hd", 0) == Decimal(70000) && StandardText(env, x, 0) == Decimal(4464)
  {
    hide Render, IntText, StandardInt, Decimal;
    var x := Spec([], NO_WIDTH, NoPrecision, "h", 'd');
    assert SpecText(x) == "%hd";
    KnownPrints(env, x, 0, []);
    RenderAlone(env, x);
    assert GivenFlags([]) == NO_FLAGS;
    DecimalText(70000);
    PlainStandard(4464);
  }

  lemma PlainStandard(v: nat)
    ensures StandardInt(v, 10, 0, -1, NO_FLAGS) == Decimal(v)
  {
    hide Digits, Numeral;
    DigitsAreNumeral(v, 10, false);
    CopiesNone(' ', -|Digits(v, 10, false)|);
    CopiesNone('0', -1 - |Digits(v, 10, false)|);
    var none: seq<char> := [];
    assert none + none + none + (none + Digits(v, 10, false)) == Digits(v, 10, false);
  }

  /** `%lld%d` prints the two words of the long long as two numbers. */
  lemma LongLongFails(env: Env)
    ensures Render(env, "%lld%d", 0) == Decimal(Int32(env.word(0))) + Decimal(Int32(env.word(1)))
    ensures env.word(1) == 1 ==> SpecDeparts(env, Spec([], NO_WIDTH, NoPrecision, "ll", 'd'), 0)
  {
    hide Render, IntText, Decimal, Int32, Departs;
    var x, y := Spec([], NO_WIDTH, NoPrecision, "ll", 'd'), Spec([], NO_WIDTH, NoPrecision, [], 'd');
    assert SpecText(x) + "%d" == "%lld%d" && SpecText(y) + [] == "%d";
    ConvertedInt(env, 'd', SpecMeaning(env, x, 0, "%d"));
    ConvertedInt(env, 'd', SpecMeaning(env, y, 1, []));
    RenderSpec(env, x, "%d", 0);
    RenderSpec(env, y, [], 1);
    RenderNothing(env, 2);
    WordRange(env.word(0));
    WordRange(env.word(1));
    DecimalText(Int32(env.word(0)));
    DecimalText(Int32(env.word(1)));
    assert Decimal(Int32(env.word(1))) + [] == Decimal(Int32(env.word(1)));
  }

  lemma NumIgnored(value: int, base: nat, min: int, max: int, flags: Flags)
    requires 8 <= base <= 16
    ensures IntText(value, base, min, max, flags) == IntText(value, base, min, max, flags.(num := false))
  {
    hide Digits, Copies, SpacePad, ZeroPad;
  }

  /** No conversion but that of a double looks at the `#` flag. */
  lemma AlternateIgnored(env: Env, c: char, d: Directive)
    requires c != 'f'
    ensures Converted(env, c, d) == Converted(env, c, d.(flags := d.flags.(num := false)))
  {
    hide IntText, Copies, FirstOf;
    if IsIntConversion(c) {
      ConvertedInt(env, c, d);
      ConvertedInt(env, c, d.(flags := d.flags.(num := false)));
      NumIgnored(Int32(env.word(d.arg)), ConversionBase(c), d.min, d.max, ConversionFlags(c, d.flags));
    } else {
      NumIgnored(Int32(env.word(d.arg)), 16, d.min, d.max, d.flags);
    }
  }

  /** `%#x` of 1 prints 1, where the standard asks for 0x1. */
  lemma AlternateFails()
    ensures Departs(1, 16, 0, -1, NO_FLAGS.(num := true, unsigned := true))
    ensures IntText(1, 16, 0, -1, NO_FLAGS.(num := true, unsigned := true)) == "1"
    ensures StandardInt(1, 16, 0, -1, NO_FLAGS.(num := true, unsigned := true)) == "0x1"
  {
    assert Digits(1, 16, false) == ['1'] == Numeral(1, 16, false);
    CopiesNone(' ', -3);
    CopiesNone(' ', 0);
    CopiesNone('0', 0);
  }
}
