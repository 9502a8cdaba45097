/** The field of an integer as ISO/IEC 9899:1999 asks for it, and exactly where the code prints it. */
module StandardFormat {
  import opened Numbers
  import opened FormatModel

  // ----- numerals and signs

  const LOWER: seq<char> := "0123456789abcdef"
  const UPPER: seq<char> := "0123456789ABCDEF"

  function Letters(up: bool): (s: seq<char>)
    ensures |s| == 16
  {
    if up then UPPER else LOWER
  }

  /** The numeral of `n` without leading zeros, most significant digit first. */
  function Numeral(n: nat, base: nat, up: bool): seq<char>
    requires 2 <= base <= 16
  {
    if n < base then [Letters(up)[n]] else Numeral(n / base, base, up) + [Letters(up)[n % base]]
  }

  /** The digits that the code prints are the numeral. */
  lemma {:induction false} DigitsAreNumeral(n: nat, base: nat, up: bool)
    requires 2 <= base <= 16
    ensures Digits(n, base, up) == Numeral(n, base, up)
  {
    hide DigitChar, Letters;
    if n < base {
      LetterOf(n, up);
    } else {
      DivMod(n, base);
      DigitsAreNumeral(n / base, base, up);
      LetterOf(n % base, up);
    }
  }

  lemma LetterOf(d: nat, up: bool)
    requires d < 16
    ensures DigitChar(d, up) == Letters(up)[d]
  {
  }

  lemma {:induction false} NumeralLetters(n: nat, base: nat, up: bool)
    requires 2 <= base <= 16
    ensures forall c :: c in Numeral(n, base, up) ==> c in Letters(up)[..base]
  {
    hide Letters;
    if n < base {
      LetterIn(n, base, up);
    } else {
      DivMod(n, base);
      NumeralLetters(n / base, base, up);
      LetterIn(n % base, base, up);
    }
  }

  lemma LetterIn(d: nat, base: nat, up: bool)
    requires d < base <= 16
    ensures Letters(up)[d] in Letters(up)[..base]
  {
    assert Letters(up)[..base][d] == Letters(up)[d];
  }

  /** A sign is shown for a negative number, and for any other if a flag asks for one. */
  function StandardSign(v: int, flags: Flags): seq<char> {
    if flags.unsigned then ""
    else if v < 0 then "-"
    else if flags.plus then "+"
    else if flags.space then " "
    else ""
  }

  lemma SameSign(v: int, flags: Flags)
    ensures Sign(v, flags) == StandardSign(v, flags)
  {
  }

  // ----- what the standard asks of integer conversions

  function Abs(n: int): nat { if n < 0 then -n else n }

  /** The field of the integer `v` (section 7.19.6.1 of ISO/IEC 9899:1999).  A precision sets the least
      number of digits, 0 with precision 0 has none; the `#` flag puts a 0 in front of an octal number
      that does not show one, and 0x in front of a hexadecimal number other than 0; a negative width
      means left justification, and the 0 flag is ignored beside a `-` flag or a precision. */
  function StandardInt(v: int, base: nat, width: int, precision: int, flags: Flags): seq<char>
    requires 8 <= base <= 16
  {
    var sign, prefix, number := StandardSign(v, flags), Prefix(v, base, flags), StandardNumber(v, base, precision, flags);
    var pad := Abs(width) - |sign| - |prefix| - |number|;
    if flags.minus || width < 0 then sign + prefix + number + Copies(' ', pad)
    else if flags.zero && precision < 0 then sign + prefix + Copies('0', pad) + number
    else Copies(' ', pad) + sign + prefix + number
  }

  function Prefix(v: int, base: nat, flags: Flags): (p: seq<char>)
    ensures |p| == 0 || |p| == 2
  {
    if flags.num && base == 16 && v != 0 then (if flags.up then "0X" else "0x") else []
  }

  /** The digits that the precision and the octal `#` ask for. */
  function StandardNumber(v: int, base: nat, precision: int, flags: Flags): seq<char>
    requires 8 <= base <= 16
  {
    var digits := if precision == 0 && v == 0 then [] else Numeral(Abs(v), base, flags.up);
    var shown := Copies('0', precision - |digits|) + digits;
    if flags.num && base == 8 && (|shown| == 0 || shown[0] != '0') then ['0'] + shown else shown
  }

  /** The integer that the code prints for a 32-bit value. */
  function Printed(value: int, flags: Flags): int {
    if flags.unsigned then value % TWO32 else value
  }

  /** The octal `#` asks for a 0 that the digits of the number do not show. */
  predicate WantsZero(v: int, base: nat, precision: int, flags: Flags)
    requires 8 <= base <= 16
  {
    flags.num && base == 8 && v != 0 && precision <= |Digits(Abs(v), base, flags.up)|
  }

  /** The characters of the number, sign and wanted 0 included. */
  function NumberWidth(v: int, base: nat, precision: int, flags: Flags): nat
    requires 8 <= base <= 16
  {
    |Sign(v, flags)| + Max(precision, |Digits(Abs(v), base, flags.up)|)
      + if WantsZero(v, base, precision, flags) then 1 else 0
  }

  /** Where the code departs from the standard.  `#` prints no 0x, and a wanted 0 only as padding of the 0
      flag; 0 with precision 0 prints a digit that only an octal `#` asks for; and where the width wants
      padding, a negative width is not read as left justification, and the 0 flag prevails over a `-`
      flag and over a precision. */
  ghost predicate Departs(v: int, base: nat, width: int, precision: int, flags: Flags)
    requires 8 <= base <= 16
  {
    var number := NumberWidth(v, base, precision, flags);
    || Prefix(v, base, flags) != []
    || (WantsZero(v, base, precision, flags) && !(flags.zero && number <= width))
    || (precision == 0 && v == 0 && !(flags.num && base == 8))
    || (number < Abs(width) && (width < 0 || (flags.zero && (flags.minus || precision >= 0))))
  }

  // ----- fields by their parts

  /** A field: spaces, a sign, zeros, the digits from the first other than 0 on, spaces. */
  datatype Parts = Parts(lead: nat, zeros: nat, trail: nat)

  function Significant(v: int, base: nat, up: bool): seq<char>
    requires 8 <= base <= 16
  {
    if v == 0 then [] else Digits(Abs(v), base, up)
  }

  function Field(p: Parts, sign: seq<char>, s: seq<char>): seq<char> {
    Copies(' ', p.lead) + sign + Copies('0', p.zeros) + s + Copies(' ', p.trail)
  }

  /** The parts of what the code prints; `n` counts the digits of the numeral. */
  function CodeParts(v: int, n: nat, sign: nat, width: int, precision: int, flags: Flags): Parts {
    var zeros, spaces := ZeroPad(n, precision), Max(width - sign - Max(precision, n), 0);
    Parts(if flags.zero || flags.minus then 0 else spaces,
          (if flags.zero then Max(zeros, spaces) else zeros) + (if v == 0 then 1 else 0),
          if flags.minus && !flags.zero then spaces else 0)
  }

  function ZerosShown(v: int, n: nat, base: nat, precision: int, flags: Flags): nat {
    var zeros := if v == 0 && precision == 0 then 0 else ZeroPad(n, precision) + if v == 0 then 1 else 0;
    if flags.num && base == 8 && zeros == 0 then 1 else zeros
  }

  /** The parts of what the standard asks for. */
  function StandardParts(v: int, n: nat, sign: nat, base: nat, width: int, precision: int, flags: Flags): Parts {
    var zeros := ZerosShown(v, n, base, precision, flags);
    var pad := Max(Abs(width) - sign - zeros - (if v == 0 then 0 else n), 0);
    if flags.minus || width < 0 then Parts(0, zeros, pad)
    else if flags.zero && precision < 0 then Parts(0, zeros + pad, 0)
    else Parts(pad, zeros, 0)
  }

  lemma {:induction false} CopiesJoin(c: char, m: nat, n: nat)
    ensures Copies(c, m) + Copies(c, n) == Copies(c, m + n)
  {
    if n > 0 {
      CopiesJoin(c, m, n - 1);
      assert Copies(c, m) + (Copies(c, n - 1) + [c]) == Copies(c, m) + Copies(c, n - 1) + [c];
    }
  }

  lemma CopiesClip(c: char, n: int)
    ensures Copies(c, n) == Copies(c, Max(n, 0))
  {
  }

  /** The numeral as zeros and what is significant. */
  lemma NumeralParts(v: int, base: nat, up: bool, zeros: nat)
    requires 8 <= base <= 16
    ensures Copies('0', zeros) + Digits(Abs(v), base, up)
         == Copies('0', zeros + if v == 0 then 1 else 0) + Significant(v, base, up)
    ensures |Digits(Abs(v), base, up)| == |Significant(v, base, up)| + if v == 0 then 1 else 0
  {
    if v == 0 {
      assert Digits(0, base, up) == ['0'];
      assert Copies('0', zeros + 1) == Copies('0', zeros) + ['0'];
    }
  }

  lemma OneDigit(d: nat, up: bool)
    requires d < 16
    ensures IsHex(DigitChar(d, up)) && (d < 10 ==> IsDigit(DigitChar(d, up))) && (d > 0 ==> DigitChar(d, up) != '0')
  {
  }

  lemma {:induction false} NumeralChars(n: nat, base: nat, up: bool, i: nat)
    requires 8 <= base <= 16 && i < |Digits(n, base, up)|
    ensures IsHex(Digits(n, base, up)[i]) && (base <= 10 ==> IsDigit(Digits(n, base, up)[i]))
    ensures n > 0 ==> Digits(n, base, up)[0] != '0'
  {
    hide DigitChar, IsHex, IsDigit;
    if n < base {
      OneDigit(n, up);
    } else {
      DivMod(n, base);
      OneDigit(n % base, up);
      var before := Digits(n / base, base, up);
      QuotientPositive(n, base);
      NumeralChars(n / base, base, up, if i < |before| then i else 0);
      NumeralChars(n / base, base, up, 0);
    }
  }

  lemma QuotientPositive(n: nat, base: nat)
    requires 0 < base <= n
    ensures n / base > 0
  {
  }

  predicate IsHex(c: char) { IsDigit(c) || 'a' <= c <= 'f' || 'A' <= c <= 'F' }

  /** What is sent, as a field. */
  lemma SentField(v: int, base: nat, up: bool, before: int, sign: seq<char>, zeros: nat, behind: int)
    requires 8 <= base <= 16
    ensures Copies(' ', before) + sign + Copies('0', zeros) + Digits(Abs(v), base, up) + Copies(' ', behind)
         == Field(Parts(Max(before, 0), zeros + if v == 0 then 1 else 0, Max(behind, 0)), sign, Significant(v, base, up))
  {
    hide Digits, Copies, Significant;
    CopiesClip(' ', before);
    CopiesClip(' ', behind);
    NumeralParts(v, base, up, zeros);
    assert Copies(' ', before) + sign + Copies('0', zeros) + Digits(Abs(v), base, up)
        == Copies(' ', before) + sign + (Copies('0', zeros) + Digits(Abs(v), base, up));
    assert Copies(' ', before) + sign + Copies('0', zeros + if v == 0 then 1 else 0) + Significant(v, base, up)
        == Copies(' ', before) + sign + (Copies('0', zeros + if v == 0 then 1 else 0) + Significant(v, base, up));
  }

  lemma CodeField(value: int, base: nat, width: int, precision: int, flags: Flags)
    requires 8 <= base <= 16 && INT_MIN <= value <= INT_MAX && INT_MIN <= width <= INT_MAX
    requires var v := Printed(value, flags);
             INT_MIN <= width - |Sign(v, flags)| - Max(precision, |Digits(Abs(v), base, flags.up)|)
    ensures var v := Printed(value, flags);
            IntText(value, base, width, precision, flags)
              == Field(CodeParts(v, |Digits(Abs(v), base, flags.up)|, |Sign(v, flags)|, width, precision, flags),
                       Sign(v, flags), Significant(v, base, flags.up))
  {
    hide Digits, Copies, IntText, Significant, Sign, Magnitude, Field, Int32;
    var v := Printed(value, flags);
    SameNumber(value, flags);
    var sign, n := Sign(v, flags), |Digits(Abs(v), base, flags.up)|;
    PaddingWanted(n, |sign|, width, precision);
    FieldPieces(value, base, width, precision, flags);
    var spaces := SpacePad(n, |sign|, width, Max(precision, 0));
    var z := if flags.zero then Max(ZeroPad(n, precision), spaces) else ZeroPad(n, precision);
    var s := if flags.zero then 0 else if flags.minus then -spaces else spaces;
    SentField(v, base, flags.up, s, sign, z, -s);
  }

  /** The padding of the code where nothing overflows. */
  lemma PaddingWanted(n: nat, sign: nat, width: int, precision: int)
    requires INT_MIN <= width - sign - Max(precision, n) && width <= INT_MAX
    ensures SpacePad(n, sign, width, Max(precision, 0)) == Max(width - sign - Max(precision, n), 0)
  {
  }

  lemma SameNumber(value: int, flags: Flags)
    requires INT_MIN <= value <= INT_MAX
    ensures Magnitude(value, flags) == Abs(Printed(value, flags))
    ensures Sign(value, flags) == Sign(Printed(value, flags), flags)
  {
  }

  lemma NumberField(v: int, base: nat, precision: int, flags: Flags)
    requires 8 <= base <= 16
    ensures StandardNumber(v, base, precision, flags)
         == Copies('0', ZerosShown(v, |Digits(Abs(v), base, flags.up)|, base, precision, flags))
              + Significant(v, base, flags.up)
  {
    hide Digits, Numeral, Copies, Significant;
    var n := |Digits(Abs(v), base, flags.up)|;
    DigitsAreNumeral(Abs(v), base, flags.up);
    CopiesClip('0', precision - n);
    CopiesClip('0', precision);
    NumeralChars(Abs(v), base, flags.up, 0);
    NumeralParts(v, base, flags.up, ZeroPad(n, precision));
    var zeros := ZeroPad(n, precision);
    ZeroFirst(zeros);
    ZeroFirst(zeros + 1);
    CopiesNone('0', 0);
    OneZero();
    SignificantZero(v, base, flags.up);
    var none: seq<char> := [];
    assert none + Significant(v, base, flags.up) == Significant(v, base, flags.up);
  }

  lemma SignificantZero(v: int, base: nat, up: bool)
    requires 8 <= base <= 16
    ensures v == 0 ==> Significant(v, base, up) == []
    ensures v != 0 ==> Significant(v, base, up) == Digits(Abs(v), base, up)
  {
  }

  lemma OneZero()
    ensures Copies('0', 1) == ['0']
  {
    assert Copies('0', 0) == [];
  }

  lemma ZeroFirst(n: nat)
    ensures n > 0 ==> Copies('0', n)[0] == '0'
  {
    if n > 0 {
      CopiesAll('0', n, 0);
    }
  }

  lemma StandardField(v: int, base: nat, width: int, precision: int, flags: Flags)
    requires 8 <= base <= 16
    ensures var n, front := |Digits(Abs(v), base, flags.up)|, Sign(v, flags) + Prefix(v, base, flags);
            StandardInt(v, base, width, precision, flags)
              == Field(StandardParts(v, n, |front|, base, width, precision, flags), front, Significant(v, base, flags.up))
  {
    hide Digits, Copies, Significant, Sign, StandardSign, StandardNumber, ZerosShown, Prefix;
    SameSign(v, flags);
    var n, s := |Digits(Abs(v), base, flags.up)|, Significant(v, base, flags.up);
    var front := Sign(v, flags) + Prefix(v, base, flags);
    var zeros := ZerosShown(v, n, base, precision, flags);
    NumberField(v, base, precision, flags);
    SignificantZero(v, base, flags.up);
    var pad := Abs(width) - |front| - zeros - |s|;
    CopiesClip(' ', pad);
    CopiesClip('0', pad);
    CopiesNone(' ', 0);
    CopiesJoin('0', Max(pad, 0), zeros);
    var none: seq<char> := [];
    Joined(Sign(v, flags), Prefix(v, base, flags), Copies('0', zeros), s, Copies(' ', pad), Copies('0', pad));
  }

  /** The three ways in which a field is put together. */
  lemma Joined(sign: seq<char>, prefix: seq<char>, zeros: seq<char>, s: seq<char>, spaces: seq<char>, fill: seq<char>)
    ensures sign + prefix + (zeros + s) + spaces == [] + (sign + prefix) + zeros + s + spaces
    ensures sign + prefix + fill + (zeros + s) == [] + (sign + prefix) + (fill + zeros) + s + []
    ensures spaces + sign + prefix + (zeros + s) == spaces + (sign + prefix) + zeros + s + []
  {
    JoinThree(sign + prefix, zeros, s);
    JoinThree(sign + prefix + fill, zeros, s);
    JoinThree(sign + prefix, fill, zeros);
    JoinThree(spaces, sign, prefix);
    JoinThree(spaces + (sign + prefix), zeros, s);
  }

  lemma JoinThree(a: seq<char>, b: seq<char>, c: seq<char>)
    ensures a + (b + c) == a + b + c && [] + a == a == a + []
  {
  }

  // ----- equal fields have equal parts

  predicate IsSign(sign: seq<char>) { sign == [] || sign == ['-'] || sign == ['+'] || sign == [' '] }

  /** Digits of a numeral without leading zeros. */
  ghost predicate IsNumeral(s: seq<char>) {
    (forall i :: 0 <= i < |s| ==> IsHex(s[i])) && (|s| > 0 ==> s[0] != '0')
  }

  /** Where the number of a field begins and ends. */
  lemma FieldEnds(p: Parts, sign: seq<char>, s: seq<char>)
    requires IsSign(sign) && IsNumeral(s) && p.zeros + |s| > 0
    ensures var f, first := Field(p, sign, s), p.lead + |sign|;
            && |f| == first + p.zeros + |s| + p.trail
            && (forall k :: 0 <= k < p.lead ==> f[k] == ' ') && (|sign| == 1 ==> f[p.lead] == sign[0])
            && IsHex(f[first]) && IsHex(f[|f| - 1 - p.trail])
            && (forall k :: |f| - p.trail <= k < |f| ==> f[k] == ' ')
  {
    hide Copies, IsHex;
    var f, first := Field(p, sign, s), p.lead + |sign|;
    forall k | 0 <= k < p.lead ensures f[k] == ' ' {
      CopiesAll(' ', p.lead, k);
    }
    forall k | |f| - p.trail <= k < |f| ensures f[k] == ' ' {
      CopiesAll(' ', p.trail, k - (|f| - p.trail));
    }
    ZeroIsHex();
    if p.zeros > 0 {
      CopiesAll('0', p.zeros, 0);
      CopiesAll('0', p.zeros, p.zeros - 1);
    }
    assert f[first] == if p.zeros > 0 then '0' else s[0];
    assert f[|f| - 1 - p.trail] == if |s| > 0 then s[|s| - 1] else '0';
  }

  lemma ZeroIsHex()
    ensures IsHex('0') && !IsHex(' ') && !IsHex('-') && !IsHex('+')
  {
  }

  /** A number that begins earlier makes another field. */
  lemma EarlierNumber(p: Parts, q: Parts, sign: seq<char>, s: seq<char>)
    requires IsSign(sign) && IsNumeral(s) && p.zeros + |s| > 0 && q.zeros + |s| > 0
    requires p.lead < q.lead
    ensures Field(p, sign, s) != Field(q, sign, s)
  {
    hide Field, IsHex, IsNumeral;
    FieldEnds(p, sign, s);
    FieldEnds(q, sign, s);
    ZeroIsHex();
    var first := p.lead + |sign|;
    assert Field(q, sign, s)[first] == if first < q.lead then ' ' else sign[0];
  }

  lemma FieldUnique(p: Parts, q: Parts, sign: seq<char>, s: seq<char>)
    requires IsSign(sign) && IsNumeral(s) && p.zeros + |s| > 0 && q.zeros + |s| > 0
    requires Field(p, sign, s) == Field(q, sign, s)
    ensures p == q
  {
    hide Field, IsHex, IsNumeral;
    FieldEnds(p, sign, s);
    FieldEnds(q, sign, s);
    ZeroIsHex();
    if p.lead < q.lead {
      EarlierNumber(p, q, sign, s);
    } else if q.lead < p.lead {
      EarlierNumber(q, p, sign, s);
    }
  }

  /** Without zeros and digits there is no 0 in a field. */
  lemma NoNumber(p: Parts, sign: seq<char>)
    requires IsSign(sign) && p.zeros == 0
    ensures '0' !in Field(p, sign, [])
  {
    hide Copies;
    CopiesNone('0', 0);
    forall k | 0 <= k < |Field(p, sign, [])| ensures Field(p, sign, [])[k] != '0' {
      if k < p.lead {
        CopiesAll(' ', p.lead, k);
      } else if k >= p.lead + |sign| {
        CopiesAll(' ', p.trail, k - p.lead - |sign|);
      }
    }
  }

  /** The parts agree exactly where the code does not depart. */
  lemma PartsIff(v: int, base: nat, width: int, precision: int, flags: Flags)
    requires 8 <= base <= 16 && Prefix(v, base, flags) == []
    ensures var n, sign := |Digits(Abs(v), base, flags.up)|, |Sign(v, flags)|;
            (CodeParts(v, n, sign, width, precision, flags) == StandardParts(v, n, sign, base, width, precision, flags)
             <==> !Departs(v, base, width, precision, flags))
  {
    hide Sign;
    var n := |Digits(Abs(v), base, flags.up)|;
    NumeralParts(v, base, flags.up, 0);
    SignificantZero(v, base, flags.up);
    hide Digits, Prefix, Significant;
  }

  /** A field with 0x in it is not what the code prints. */
  lemma PrefixShows(v: int, base: nat, width: int, precision: int, flags: Flags)
    requires 8 <= base <= 16 && Prefix(v, base, flags) != []
    ensures exists c :: c in StandardInt(v, base, width, precision, flags) && (c == 'x' || c == 'X')
  {
    hide Digits, Copies, StandardSign, StandardNumber;
    var prefix := Prefix(v, base, flags);
    assert prefix[1] == 'x' || prefix[1] == 'X';
    assert prefix[1] in StandardInt(v, base, width, precision, flags);
  }

  lemma NoPrefix(p: Parts, sign: seq<char>, s: seq<char>, k: nat)
    requires IsSign(sign) && IsNumeral(s) && k < |Field(p, sign, s)|
    ensures Field(p, sign, s)[k] != 'x' && Field(p, sign, s)[k] != 'X'
  {
    hide Copies;
    var first := p.lead + |sign|;
    if k < p.lead {
      CopiesAll(' ', p.lead, k);
    } else if first <= k < first + p.zeros {
      CopiesAll('0', p.zeros, k - first);
    } else if k >= first + p.zeros + |s| {
      CopiesAll(' ', p.trail, k - first - p.zeros - |s|);
    } else if k >= first + p.zeros {
      assert Field(p, sign, s)[k] == s[k - first - p.zeros];
    }
  }

  lemma SignIsSign(v: int, flags: Flags)
    ensures IsSign(Sign(v, flags))
  {
  }

  lemma SignificantNumeral(v: int, base: nat, up: bool)
    requires 8 <= base <= 16
    ensures IsNumeral(Significant(v, base, up))
  {
    hide Digits;
    if v != 0 {
      var s := Digits(Abs(v), base, up);
      forall i | 0 <= i < |s| ensures IsHex(s[i]) {
        NumeralChars(Abs(v), base, up, i);
      }
      NumeralChars(Abs(v), base, up, 0);
    }
  }

  /** Where no padding overflows, an integer conversion prints the field that the standard asks for
      exactly unless it departs in one of those ways. */
  lemma IntFieldIff(value: int, base: nat, width: int, precision: int, flags: Flags)
    requires 8 <= base <= 16 && INT_MIN <= value <= INT_MAX && INT_MIN <= width <= INT_MAX
    ensures var v := Printed(value, flags);
            INT_MIN <= width - |Sign(v, flags)| - Max(precision, |Digits(Abs(v), base, flags.up)|) ==>
              (IntText(value, base, width, precision, flags) == StandardInt(v, base, width, precision, flags)
               <==> !Departs(v, base, width, precision, flags))
  {
    hide Digits, Sign, IntText, StandardInt, Departs, Significant, Field, CodeParts, StandardParts, IsNumeral, Prefix;
    var v := Printed(value, flags);
    var n, sign, s := |Digits(Abs(v), base, flags.up)|, Sign(v, flags), Significant(v, base, flags.up);
    if INT_MIN <= width - |sign| - Max(precision, n) {
      CodeField(value, base, width, precision, flags);
      SignIsSign(v, flags);
      SignificantNumeral(v, base, flags.up);
      var p := CodeParts(v, n, |sign|, width, precision, flags);
      CodeShows(v, n, |sign|, width, precision, flags, base);
      if Prefix(v, base, flags) != [] {
        PrefixShows(v, base, width, precision, flags);
        forall k | 0 <= k < |Field(p, sign, s)| ensures Field(p, sign, s)[k] != 'x' && Field(p, sign, s)[k] != 'X' {
          NoPrefix(p, sign, s, k);
        }
        PrefixDeparts(v, base, width, precision, flags);
      } else {
        var q := StandardParts(v, n, |sign|, base, width, precision, flags);
        StandardField(v, base, width, precision, flags);
        assert sign + Prefix(v, base, flags) == sign;
        PartsIff(v, base, width, precision, flags);
        if Field(p, sign, s) == Field(q, sign, s) {
          if q.zeros + |s| > 0 {
            FieldUnique(p, q, sign, s);
          } else {
            NoNumber(q, sign);
            ZeroIn(p, sign, s);
          }
        }
      }
    }
  }

  lemma CodeShows(v: int, n: nat, sign: nat, width: int, precision: int, flags: Flags, base: nat)
    requires 8 <= base <= 16
    ensures CodeParts(v, n, sign, width, precision, flags).zeros + |Significant(v, base, flags.up)| > 0
  {
    hide Digits;
  }

  lemma ZeroIn(p: Parts, sign: seq<char>, s: seq<char>)
    requires p.zeros > 0
    ensures '0' in Field(p, sign, s)
  {
    hide Copies;
    CopiesAll('0', p.zeros, 0);
    assert Field(p, sign, s)[p.lead + |sign|] == '0';
  }

  lemma PrefixDeparts(v: int, base: nat, width: int, precision: int, flags: Flags)
    requires 8 <= base <= 16 && Prefix(v, base, flags) != []
    ensures Departs(v, base, width, precision, flags)
  {
    hide Digits, Sign, Prefix;
  }

  // ----- the number that a field shows

  /** The value of the digits of a text, whatever stands between them. */
  function Reading(s: seq<char>, base: nat): int {
    if |s| == 0 then 0
    else if IsHex(s[|s| - 1]) then Reading(s[..|s| - 1], base) * base + DigitValue(s[|s| - 1])
    else Reading(s[..|s| - 1], base)
  }

  function SignedReading(s: seq<char>, base: nat): int {
    if '-' in s then -Reading(s, base) else Reading(s, base)
  }

  ghost predicate Silent(s: seq<char>) {
    forall i :: 0 <= i < |s| ==> !IsHex(s[i]) || s[i] == '0'
  }

  lemma {:induction false} SilentReads(s: seq<char>, base: nat)
    requires Silent(s)
    ensures Reading(s, base) == 0
  {
    if |s| > 0 {
      SilentReads(s[..|s| - 1], base);
    }
  }

  lemma {:induction false} ReadingBehind(a: seq<char>, b: seq<char>, base: nat)
    requires Reading(a, base) == 0
    ensures Reading(a + b, base) == Reading(b, base)
    decreases |b|
  {
    if |b| == 0 {
      assert a + b == a;
    } else {
      ReadingBehind(a, b[..|b| - 1], base);
      assert (a + b)[..|a + b| - 1] == a + b[..|b| - 1];
    }
  }

  lemma ReadingSkips(a: seq<char>, c: char, base: nat)
    requires !IsHex(c)
    ensures Reading(a + [c], base) == Reading(a, base)
  {
    assert (a + [c])[..|a|] == a;
  }

  lemma {:induction false} ReadingBefore(a: seq<char>, n: nat, base: nat)
    ensures Reading(a + Copies(' ', n), base) == Reading(a, base)
    decreases n
  {
    hide Reading;
    if n == 0 {
      assert a + Copies(' ', 0) == a;
    } else {
      ReadingBefore(a, n - 1, base);
      ReadingSkips(a + Copies(' ', n - 1), ' ', base);
      assert a + (Copies(' ', n - 1) + [' ']) == a + Copies(' ', n - 1) + [' '];
    }
  }

  lemma {:induction false} ReadingDigits(s: seq<char>, base: nat)
    requires forall i :: 0 <= i < |s| ==> IsHex(s[i])
    ensures Reading(s, base) == Eval(s, base)
  {
    if |s| > 0 {
      ReadingDigits(s[..|s| - 1], base);
    }
  }

  /** A field reads as its digits. */
  lemma FieldReads(p: Parts, front: seq<char>, s: seq<char>, base: nat)
    requires Silent(front) && IsNumeral(s)
    ensures Reading(Field(p, front, s), base) == Eval(s, base)
    ensures '-' in Field(p, front, s) <==> '-' in front
  {
    hide Copies, Reading;
    var before := Copies(' ', p.lead) + front + Copies('0', p.zeros);
    forall k | 0 <= k < p.lead ensures Copies(' ', p.lead)[k] == ' ' { CopiesAll(' ', p.lead, k); }
    forall k | 0 <= k < p.zeros ensures Copies('0', p.zeros)[k] == '0' { CopiesAll('0', p.zeros, k); }
    forall k | 0 <= k < p.trail ensures Copies(' ', p.trail)[k] == ' ' { CopiesAll(' ', p.trail, k); }
    SilentReads(before, base);
    ReadingBehind(before, s, base);
    ReadingBefore(before + s, p.trail, base);
    ReadingDigits(s, base);
    FrontIn(p, front, s);
  }

  lemma FrontIn(p: Parts, front: seq<char>, s: seq<char>)
    ensures forall c :: c in front ==> c in Field(p, front, s)
  {
    hide Copies;
  }

  lemma SignificantValue(v: int, base: nat, up: bool)
    requires 8 <= base <= 16
    ensures Eval(Significant(v, base, up), base) == Abs(v)
  {
    hide Digits;
    EvalDigits(Abs(v), base, up);
  }

  lemma FrontSilent(v: int, base: nat, flags: Flags)
    ensures Silent(Sign(v, flags)) && Silent(Sign(v, flags) + Prefix(v, base, flags))
    ensures '-' in Sign(v, flags) + Prefix(v, base, flags) <==> (!flags.unsigned && v < 0)
    ensures '-' in Sign(v, flags) <==> (!flags.unsigned && v < 0)
  {
  }

  /** What the standard asks for shows the number. */
  lemma StandardReads(v: int, base: nat, width: int, precision: int, flags: Flags)
    requires 8 <= base <= 16 && (flags.unsigned ==> v >= 0)
    ensures SignedReading(StandardInt(v, base, width, precision, flags), base) == v
  {
    hide StandardInt, Field, StandardParts, Sign, Prefix, Significant, Reading, Digits, Silent, IsNumeral;
    var front := Sign(v, flags) + Prefix(v, base, flags);
    var p := StandardParts(v, |Digits(Abs(v), base, flags.up)|, |front|, base, width, precision, flags);
    StandardField(v, base, width, precision, flags);
    FrontSilent(v, base, flags);
    SignificantNumeral(v, base, flags.up);
    FieldReads(p, front, Significant(v, base, flags.up), base);
    SignificantValue(v, base, flags.up);
  }

  /** So does what the code prints, of the number that it takes the argument for. */
  lemma PrintedReads(value: int, base: nat, width: int, precision: int, flags: Flags)
    requires 8 <= base <= 16 && INT_MIN <= value <= INT_MAX
    ensures SignedReading(IntText(value, base, width, precision, flags), base) == Printed(value, flags)
  {
    hide IntText, Field, Sign, Significant, Reading, Digits, Silent, IsNumeral, Magnitude, SpacePad, Copies;
    var v := Printed(value, flags);
    SameNumber(value, flags);
    FieldPieces(value, base, width, precision, flags);
    var n, sign := |Digits(Abs(v), base, flags.up)|, Sign(v, flags);
    var spaces := SpacePad(n, |sign|, width, Max(precision, 0));
    var z := if flags.zero then Max(ZeroPad(n, precision), spaces) else ZeroPad(n, precision);
    var s := if flags.zero then 0 else if flags.minus then -spaces else spaces;
    SentField(v, base, flags.up, s, sign, z, -s);
    FrontSilent(v, base, flags);
    SignificantNumeral(v, base, flags.up);
    FieldReads(Parts(Max(s, 0), z + if v == 0 then 1 else 0, Max(-s, 0)), sign, Significant(v, base, flags.up), base);
    SignificantValue(v, base, flags.up);
  }

  /** The characters of a printed integer: spaces, a sign, and the digits of its base, in the case that the
      conversion asks for. */
  lemma FieldLetters(value: int, base: nat, width: int, precision: int, flags: Flags, c: char)
    requires 8 <= base <= 16 && c in IntText(value, base, width, precision, flags)
    ensures c == ' ' || c == '+' || c == '-' || c in Letters(flags.up)[..base]
  {
    hide Digits, Copies, IntText, SpacePad, Magnitude, Letters;
    var u := Magnitude(value, flags);
    DigitsAreNumeral(u, base, flags.up);
    NumeralLetters(u, base, flags.up);
    ZeroLetter(base, flags.up);
    FieldPieces(value, base, width, precision, flags);
    var digits, sign := Digits(u, base, flags.up), Sign(value, flags);
    var spaces := SpacePad(|digits|, |sign|, width, Max(precision, 0));
    var z := if flags.zero then Max(ZeroPad(|digits|, precision), spaces) else ZeroPad(|digits|, precision);
    var s := if flags.zero then 0 else if flags.minus then -spaces else spaces;
    OnlyCopies(' ', s);
    OnlyCopies('0', z);
    OnlyCopies(' ', -s);
    assert c in Copies(' ', s) + sign + Copies('0', z) + digits + Copies(' ', -s);
  }

  lemma ZeroLetter(base: nat, up: bool)
    requires 1 <= base <= 16
    ensures '0' in Letters(up)[..base]
  {
    assert Letters(up)[..base][0] == '0';
  }

  lemma OnlyCopies(c: char, n: int)
    ensures forall d :: d in Copies(c, n) ==> d == c
  {
    forall i | 0 <= i < |Copies(c, n)| ensures Copies(c, n)[i] == c {
      CopiesAll(c, n, i);
    }
  }
}
