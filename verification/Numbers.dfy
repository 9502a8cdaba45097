/** Numbers as text: the digits that `fmtint` produces and the value that `atoi` reads. */
module Numbers {

  const INT_MIN: int := -0x8000_0000
  const INT_MAX: int := 0x7FFF_FFFF
  const TWO32: nat := 0x1_0000_0000
  const NUL: char := '\0'

  /** A value stored in a 32-bit `int`. */
  function Int32(x: int): (r: int)
    ensures INT_MIN <= r <= INT_MAX
    ensures INT_MIN <= x <= INT_MAX ==> r == x
  {
    (x + 0x8000_0000) % TWO32 - 0x8000_0000
  }

  /** A byte read through a `char` pointer, which is signed on i386. */
  function SignedChar(c: char): int {
    var b := c as int % 256;
    if b < 128 then b else b - 256
  }

  // ----- digits

  /** The digit characters that `fmtint` indexes. */
  function DigitChar(d: nat, caps: bool): char
    requires d < 16
  {
    if d < 10 then ('0' as int + d) as char
    else if caps then ('A' as int + d - 10) as char
    else ('a' as int + d - 10) as char
  }

  /** The numeral of `n`, most significant digit first. */
  function Digits(n: nat, base: nat, caps: bool): (s: seq<char>)
    requires 2 <= base <= 16
    ensures |s| >= 1
  {
    if n < base then [DigitChar(n, caps)]
    else Digits(n / base, base, caps) + [DigitChar(n % base, caps)]
  }

  function DigitValue(c: char): int {
    if '0' <= c <= '9' then c as int - '0' as int
    else if 'A' <= c <= 'F' then c as int - 'A' as int + 10
    else c as int - 'a' as int + 10
  }

  /** The positional value of a text. */
  function Eval(s: seq<char>, base: nat): int {
    if |s| == 0 then 0 else Eval(s[..|s| - 1], base) * base + DigitValue(s[|s| - 1])
  }

  lemma DigitInverse(d: nat, caps: bool)
    requires d < 16
    ensures DigitValue(DigitChar(d, caps)) == d
    ensures d < 10 ==> DigitChar(d, caps) == ('0' as int + d) as char
  {
  }

  lemma DivMod(n: nat, base: nat)
    requires 2 <= base <= n
    ensures n / base * base + n % base == n && n / base < n
  {
    var q := n / base;
    assert n == base * q + n % base;
    TwiceAtMost(base, q);
  }

  lemma TwiceAtMost(base: nat, q: nat)
    requires 2 <= base
    ensures 2 * q <= base * q
  {
    var d := base - 2;
    assert base * q == 2 * q + d * q;
  }

  /** Digits in any base from 2 to 16 evaluate back to the number. */
  lemma {:induction false} EvalDigits(n: nat, base: nat, caps: bool)
    requires 2 <= base <= 16
    ensures Eval(Digits(n, base, caps), base) == n
  {
    hide DigitChar, DigitValue;
    var s := Digits(n, base, caps);
    if n < base {
      DigitInverse(n, caps);
      assert s == [DigitChar(n, caps)];
      assert Eval(s[..0], base) == 0;
    } else {
      DivMod(n, base);
      var q, d := n / base, n % base;
      EvalDigits(q, base, caps);
      DigitInverse(d, caps);
      assert s[..|s| - 1] == Digits(q, base, caps);
      assert Eval(s, base) == Eval(s[..|s| - 1], base) * base + d;
    }
  }

  function Pow8(k: nat): nat {
    if k == 0 then 1 else 8 * Pow8(k - 1)
  }

  lemma {:induction false} DigitsLength(n: nat, base: nat, caps: bool, k: nat)
    requires 8 <= base <= 16 && 1 <= k && n < Pow8(k)
    ensures |Digits(n, base, caps)| <= k
    decreases k
  {
    assert Pow8(1) == 8 * Pow8(0);
    if n >= base && k > 1 {
      Quotient(n, base, Pow8(k - 1));
      DigitsLength(n / base, base, caps, k - 1);
    }
  }

  lemma Quotient(n: nat, base: nat, p: nat)
    requires 8 <= base && n < 8 * p
    ensures n / base < p
  {
    var q := n / base;
    assert n == base * q + n % base;
    assert base * q >= 8 * q;
  }

  /** The scratch array of `fmtint` has room for every 32-bit number in base 8, 10 and 16. */
  lemma DigitsFit(n: nat, base: nat, caps: bool)
    requires 8 <= base <= 16 && n < TWO32
    ensures |Digits(n, base, caps)| <= 11
  {
    assert Pow8(11) == 0x2_0000_0000 by {
      assert Pow8(4) == 4096;
      assert Pow8(8) == 0x100_0000;
    }
    DigitsLength(n, base, caps, 11);
  }

  // ----- atoi

  /** The accumulator of `atoi` after the digits `s`, in wrapping 32-bit arithmetic. */
  function AtoiAcc(s: seq<char>): int {
    if |s| == 0 then 0 else Int32(AtoiAcc(s[..|s| - 1]) * 10 + SignedChar(s[|s| - 1]) - '0' as int)
  }

  lemma AtoiRange(s: seq<char>)
    ensures INT_MIN <= AtoiAcc(s) <= INT_MAX
  {
  }

  /** The part of a C string that a reader sees. */
  function CString(s: seq<char>): (r: seq<char>)
    ensures |r| <= |s| && r == s[..|r|] && NUL !in r
    ensures |r| < |s| ==> s[|r|] == NUL
  {
    if |s| == 0 || s[0] == NUL then []
    else
      var rest := CString(s[1..]);
      assert s[..1 + |rest|] == [s[0]] + s[1..][..|rest|];
      [s[0]] + rest
  }

  /** What `atoi` returns for a C string. */
  function AtoiOf(s: seq<char>): int {
    var t := CString(s);
    if |t| > 0 && t[0] == '-' then Int32(-AtoiAcc(t[1..])) else AtoiAcc(t)
  }

  /** `atoi`; the text is read up to its NUL, or to its end. */
  method Atoi(str: seq<char>) returns (r: int)
    ensures r == AtoiOf(str)
  {
    hide Int32;
    var res, sign, i := 0, 1, 0;
    ghost var t := CString(str);
    if i < |str| && str[0] == '-' {
      sign := -1;
      i := i + 1;
    }
    ghost var first := i;
    while i < |str| && str[i] != NUL
      invariant first <= i <= |t| && res == AtoiAcc(t[first..i])
      decreases |str| - i
    {
      assert i < |t| && t[i] == str[i];
      assert t[first..i + 1][..i - first] == t[first..i];
      res := Int32(res * 10 + SignedChar(str[i]) - '0' as int);
      i := i + 1;
    }
    assert t[first..i] == t[first..];
    assert t[0..] == t;
    AtoiRange(t[first..]);
    assert sign * res == if sign == 1 then res else -res;
    r := Int32(sign * res);
  }

  /** The text of a decimal number. */
  function Decimal(v: int): seq<char> {
    if v < 0 then ['-'] + Digits(-v, 10, false) else Digits(v, 10, false)
  }

  lemma AtoiStep(s: seq<char>, n: nat, d: nat, caps: bool)
    requires d < 10 && AtoiAcc(s) == n && 10 * n + d <= INT_MAX
    ensures AtoiAcc(s + [DigitChar(d, caps)]) == 10 * n + d
  {
    assert (s + [DigitChar(d, caps)])[..|s|] == s;
  }

  lemma {:induction false} AtoiDigits(n: nat, caps: bool)
    requires n <= INT_MAX
    ensures AtoiAcc(Digits(n, 10, caps)) == n
  {
    hide AtoiAcc, DigitChar;
    if n < 10 {
      AtoiEmpty();
      AtoiStep([], 0, n, caps);
      assert [] + [DigitChar(n, caps)] == Digits(n, 10, caps);
    } else {
      AtoiDigits(n / 10, caps);
      AtoiStep(Digits(n / 10, 10, caps), n / 10, n % 10, caps);
    }
  }

  /** Bytes from 128 on are negative characters. */
  lemma AtoiHighByte(c: char)
    requires 128 <= c as int < 256
    ensures AtoiOf([c]) == (c as int - 256) - 48
  {
    CStringWhole([c]);
    AtoiEmpty();
    assert [c][..|[c]| - 1] == [];
    assert SignedChar([c][|[c]| - 1]) == c as int - 256;
    assert AtoiAcc([c]) == Int32(0 * 10 + SignedChar(c) - '0' as int);
  }

  lemma AtoiEmpty()
    ensures AtoiAcc([]) == 0
  {
  }

  lemma {:induction false} DigitsPlain(n: nat, base: nat, caps: bool, i: nat)
    requires 2 <= base <= 16 && i < |Digits(n, base, caps)|
    ensures Digits(n, base, caps)[i] != NUL && Digits(n, base, caps)[i] != '-'
  {
    hide DigitChar;
    if n < base {
      DigitPlain(n, caps);
    } else {
      DivMod(n, base);
      DigitPlain(n % base, caps);
      if i < |Digits(n / base, base, caps)| {
        DigitsPlain(n / base, base, caps, i);
      }
    }
  }

  lemma DigitPlain(d: nat, caps: bool)
    requires d < 16
    ensures DigitChar(d, caps) != NUL && DigitChar(d, caps) != '-'
  {
  }

  lemma CStringWhole(s: seq<char>)
    requires NUL !in s
    ensures CString(s) == s
  {
  }

  /** `atoi` inverts the decimal numeral of every `int` but the least. */
  lemma AtoiDecimal(v: int)
    requires INT_MIN < v <= INT_MAX
    ensures AtoiOf(Decimal(v)) == v
  {
    var n := if v < 0 then -v else v;
    var d, s := Digits(n, 10, false), Decimal(v);
    forall i | 0 <= i < |d| ensures d[i] != NUL && d[i] != '-' {
      DigitsPlain(n, 10, false, i);
    }
    CStringWhole(s);
    AtoiDigits(n, false);
    if v < 0 {
      assert s[1..] == d;
    }
  }
}
