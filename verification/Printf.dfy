/** The printf engine: a state machine over the format that writes into a bounded buffer. */
module Printf {
  import opened Numbers
  import opened FormatModel

  datatype State = DpDefault | DpFlags | DpMin | DpDot | DpMax | DpMod | DpConv | DpDone

  /** The rank of a state within one specification: a step that reads no character lowers it. */
  function Rank(s: State): nat {
    match s
    case DpDone => 0
    case DpDefault => 1
    case DpConv => 2
    case DpMod => 3
    case DpMax => 4
    case DpDot => 5
    case DpMin => 6
    case DpFlags => 7
  }

  /** What is printed from a state of the machine on. */
  function Remaining(env: Env, s: State, d: Directive): seq<char> {
    match s
    case DpDone => []
    case DpDefault => Render(env, d.rest, d.arg)
    case DpConv => Finish(env, d)
    case DpMod => Finish(env, AfterModifier(d))
    case DpMax => Finish(env, AfterModifier(AfterPoint(env, d)))
    case DpDot => Finish(env, AfterModifier(AfterPrecision(env, d)))
    case DpMin => Finish(env, AfterModifier(AfterPrecision(env, AfterWidth(env, d))))
    case DpFlags => Finish(env, Parsed(env, d))
  }

  lemma StartRemaining(env: Env, format: seq<char>)
    ensures Remaining(env, DpDefault, Start(0, format)) == Render(env, format, 0)
  {
  }

  lemma DoneRemaining(env: Env, d: Directive)
    ensures Remaining(env, DpDone, d) == []
  {
  }

  lemma NulEnds(env: Env, s: State, d: Directive)
    requires Head(d.rest) == NUL
    ensures Remaining(env, s, d) == []
  {
    hide Converted, Words, AfterConversion;
  }

  lemma DefaultStep(env: Env, d: Directive)
    requires Head(d.rest) != NUL
    ensures if Head(d.rest) == '%' then Remaining(env, DpDefault, d) == Remaining(env, DpFlags, Start(d.arg, Tail(d.rest)))
            else Remaining(env, DpDefault, d) == [Head(d.rest)] + Remaining(env, DpDefault, d.(rest := Tail(d.rest)))
  {
    hide Parsed, Converted, Words, AfterConversion;
  }

  lemma ConvStep(env: Env, d: Directive)
    requires Head(d.rest) != NUL
    ensures Remaining(env, DpConv, d)
         == Converted(env, Head(d.rest), d)
            + Remaining(env, DpDefault, Start(d.arg + Words(Head(d.rest)), AfterConversion(Head(d.rest), d.rest)))
  {
    hide Parsed, Converted, Words, AfterConversion, Render;
  }

  /** One step of the machine inside a specification. */
  method ReadSpec(env: Env, state0: State, d0: Directive) returns (state: State, d: Directive)
    requires Head(d0.rest) != NUL && state0 in {DpFlags, DpMin, DpDot, DpMax, DpMod}
    ensures Remaining(env, state, d) == Remaining(env, state0, d0)
    ensures state != DpDone && state != DpDefault
    ensures |d.rest| < |d0.rest| || (|d.rest| == |d0.rest| && Rank(state) < Rank(state0))
  {
    hide Finish, WithFlag, MoreDigits, Render, Converted;
    state, d := state0, d0;
    var ch := Head(d.rest);
    match state
    case DpFlags =>
      if IsFlag(ch) {
        d := d.(flags := WithFlag(d.flags, ch), rest := Tail(d.rest));
      } else {
        state := DpMin;
      }
    case DpMin =>
      if IsDigit(ch) {
        d := d.(min := MoreDigits(d.min, ch), rest := Tail(d.rest));
      } else if ch == '*' {
        d := d.(min := Int32(env.word(d.arg)), arg := d.arg + 1, rest := Tail(d.rest));
        state := DpDot;
      } else {
        state := DpDot;
      }
    case DpDot =>
      if ch == '.' {
        state := DpMax;
        d := d.(rest := Tail(d.rest));
      } else {
        state := DpMod;
      }
    case DpMax =>
      if IsDigit(ch) {
        if d.max < 0 {
          d := d.(max := 0);
        }
        d := d.(max := MoreDigits(d.max, ch), rest := Tail(d.rest));
      } else if ch == '*' {
        d := d.(max := Int32(env.word(d.arg)), arg := d.arg + 1, rest := Tail(d.rest));
        state := DpMod;
      } else {
        state := DpMod;
      }
    case DpMod =>
      if ch == 'h' || ch == 'L' {
        d := d.(rest := Tail(d.rest));
      } else if ch == 'l' {
        d := d.(rest := Tail(d.rest));
        if Head(d.rest) == 'l' {
          d := d.(rest := Tail(d.rest));
        }
      }
      state := DpConv;
  }

  lemma CopiesNext(c: char, n: nat)
    ensures Copies(c, n + 1) == Copies(c, n) + [c]
  {
  }

  function Reversed(s: seq<char>): (r: seq<char>)
    ensures |r| == |s|
  {
    if |s| == 0 then [] else [s[|s| - 1]] + Reversed(s[..|s| - 1])
  }

  lemma ReversedNext(s: seq<char>, c: char)
    ensures Reversed(s + [c]) == [c] + Reversed(s)
  {
    assert (s + [c])[..|s|] == s;
  }

  /** The prefix of the output that a buffer of `maxlen` characters holds, over what it held before. */
  ghost predicate Holds(now: seq<char>, was: seq<char>, maxlen: nat, out: seq<char>) {
    |now| == |was| && forall k :: 0 <= k < |now| ==> now[k] == if k < |out| && k < maxlen then out[k] else was[k]
  }

  /** A buffer that has received a text, cut to `maxlen - 1` characters, and its NUL. */
  function Bounded(was: seq<char>, maxlen: nat, text: seq<char>): (now: seq<char>)
    requires maxlen <= |was|
    ensures |now| == |was|
  {
    if maxlen == 0 then was
    else
      var n := if |text| < maxlen - 1 then |text| else maxlen - 1;
      text[..n] + [NUL] + was[n + 1..]
  }

  lemma {:induction false} CStringUpTo(s: seq<char>, n: nat)
    requires n < |s| && s[n] == NUL && NUL !in s[..n]
    ensures CString(s) == s[..n]
  {
    if n > 0 {
      assert s[..n][0] == s[0] && s[1..][..n - 1] == s[..n][1..];
      CStringUpTo(s[1..], n - 1);
    }
  }

  /** What a reader of the buffer sees: the text, cut to `maxlen - 1` characters. */
  lemma ReadBack(was: seq<char>, maxlen: nat, text: seq<char>)
    requires 0 < maxlen <= |was| && NUL !in text
    ensures CString(Bounded(was, maxlen, text)) == text[..if |text| < maxlen - 1 then |text| else maxlen - 1]
  {
    var n := if |text| < maxlen - 1 then |text| else maxlen - 1;
    var now := Bounded(was, maxlen, text);
    assert now[..n] == text[..n];
    CStringUpTo(now, n);
  }

  /** Nothing behind the NUL is touched, and nothing at all where there is no room for it. */
  lemma BoundedKeeps(was: seq<char>, maxlen: nat, text: seq<char>, k: nat)
    requires maxlen <= |was| && k < |was| && (maxlen > 0 ==> k > |text| || k >= maxlen)
    ensures Bounded(was, maxlen, text)[k] == was[k]
  {
  }

  lemma Terminated(now: seq<char>, was: seq<char>, maxlen: nat, text: seq<char>)
    requires 0 < maxlen <= |was| && Holds(now, was, maxlen, text)
    ensures now[(if |text| < maxlen - 1 then |text| else maxlen - 1) := NUL] == Bounded(was, maxlen, text)
  {
  }

  lemma NothingHeld(now: seq<char>, was: seq<char>, text: seq<char>)
    requires Holds(now, was, 0, text)
    ensures now == Bounded(was, 0, text)
  {
  }

  /** Where `dopr_outch` puts characters; `out` is all that was sent, also what did not fit. */
  class Output {
    const buffer: array<char>
    const maxlen: nat
    var currlen: nat
    ghost var out: seq<char>
    ghost const was: seq<char>

    ghost predicate Valid()
      reads this, buffer
    {
      && maxlen <= buffer.Length && maxlen < TWO32
      && currlen == |out| % TWO32
      && (|out| < TWO32 ==> Holds(buffer[..], was, maxlen, out))
    }

    constructor (buffer: array<char>, maxlen: nat)
      requires maxlen <= buffer.Length && maxlen < TWO32
      ensures Valid() && this.buffer == buffer && this.maxlen == maxlen && out == [] && was == buffer[..]
    {
      this.buffer, this.maxlen, currlen := buffer, maxlen, 0;
      out, was := [], buffer[..];
    }

    /** `dopr_outch` */
    method OutCh(c: char)
      requires Valid()
      modifies this`currlen, this`out, buffer
      ensures Valid() && out == old(out) + [c]
    {
      if currlen < maxlen {
        buffer[currlen] := c;
      }
      currlen := (currlen + 1) % TWO32;
      out := out + [c];
    }

    method OutCopies(c: char, n: int)
      requires Valid()
      modifies this`currlen, this`out, buffer
      ensures Valid() && out == old(out) + Copies(c, n)
    {
      hide Valid, Copies;
      var left := n;
      ghost var k: nat := 0;
      NoCopies(c, n);
      assert out == out + Copies(c, 0);
      while left > 0
        invariant Valid() && (n > 0 ==> left == n - k && left >= 0) && (n <= 0 ==> k == 0)
        invariant out == old(out) + Copies(c, k)
      {
        OutCh(c);
        CopiesNext(c, k);
        assert old(out) + Copies(c, k) + [c] == old(out) + (Copies(c, k) + [c]);
        left, k := left - 1, k + 1;
      }
    }

    /** A padding loop of `fmtstr`: up to `n` spaces, but none once `max` characters are out. */
    method PadString(n: nat, max: int, cnt0: nat) returns (cnt: nat)
      requires Valid()
      modifies this`currlen, this`out, buffer
      ensures Valid() && out == old(out) + FirstOf(Copies(' ', n), max - cnt0)
      ensures cnt == cnt0 + |FirstOf(Copies(' ', n), max - cnt0)|
    {
      hide Valid, Copies;
      ghost var pad := Copies(' ', n);
      PadIsSpaces(n);
      var left := n;
      cnt := cnt0;
      while left > 0 && cnt < max
        invariant Valid() && 0 <= left <= n && cnt == cnt0 + (n - left)
        invariant (cnt <= max || left == n) && out == old(out) + pad[..n - left]
      {
        OutCh(' ');
        assert pad[..n - left + 1] == pad[..n - left] + [pad[n - left]];
        left, cnt := left - 1, cnt + 1;
      }
      assert pad[..n - left] == FirstOf(pad, max - cnt0);
    }

    /** The middle loop of `fmtstr`. */
    method OutString(value: seq<char>, max: int, cnt0: nat) returns (cnt: nat)
      requires Valid()
      modifies this`currlen, this`out, buffer
      ensures Valid() && out == old(out) + FirstOf(value, max - cnt0)
      ensures cnt == cnt0 + |FirstOf(value, max - cnt0)|
    {
      hide Valid;
      var i := 0;
      cnt := cnt0;
      while i < |value| && cnt < max
        invariant Valid() && 0 <= i <= |value| && cnt == cnt0 + i
        invariant (cnt <= max || i == 0) && out == old(out) + value[..i]
      {
        OutCh(value[i]);
        assert value[..i + 1] == value[..i] + [value[i]];
        i, cnt := i + 1, cnt + 1;
      }
      assert value[..i] == FirstOf(value, max - cnt0);
    }

    /** `fmtstr` */
    method FmtStr(value: seq<char>, flags: Flags, min: int, max: int)
      requires Valid()
      modifies this`currlen, this`out, buffer
      ensures Valid() && out == old(out) + StrText(value, min, max, flags)
    {
      hide Valid, Copies, FirstOf, Int32, StrText;
      var padlen := Int32(min - |value|);
      if padlen < 0 {
        padlen := 0;
      }
      if flags.minus {
        padlen := -padlen;
      }
      var cnt := PadString(if padlen > 0 then padlen else 0, max, 0);
      cnt := OutString(value, max, cnt);
      cnt := PadString(if padlen < 0 then -padlen else 0, max, cnt);
      StringPieces(value, min, max, flags);
    }

    /** `fmtint` */
    method FmtInt(value: int, base: nat, min: int, max: int, flags: Flags)
      requires Valid() && 8 <= base <= 16 && INT_MIN <= value <= INT_MAX
      modifies this`currlen, this`out, buffer
      ensures Valid() && out == old(out) + IntText(value, base, min, max, flags)
    {
      hide Valid, Copies, Digits, IntText, SpacePad, ZeroPad, Max, Int32;
      hide Sign, Magnitude;
      var signvalue, uvalue := SignAndMagnitude(value, flags);
      ghost var sign, digits := Sign(value, flags), Digits(Magnitude(value, flags), base, flags.up);
      var convert, place := Convert(uvalue, base, flags.up);
      var zpadlen, spadlen := Padding(place, if signvalue != NUL then 1 else 0, min, max, flags);
      FieldPieces(value, base, min, max, flags);
      OutCopies(' ', spadlen);
      if signvalue != NUL {
        OutCh(signvalue);
      }
      OutCopies('0', zpadlen);
      OutDigits(convert, place, digits);
      OutCopies(' ', -spadlen);
      Pieces(old(out), Copies(' ', spadlen), sign, Copies('0', zpadlen), digits, Copies(' ', -spadlen));
    }

    /** One conversion. */
    method Conversion(env: Env, c: char, d: Directive)
      requires Valid()
      modifies this`currlen, this`out, buffer
      ensures Valid() && out == old(out) + Converted(env, c, d)
    {
      hide Valid, IntText, StrText;
      var value := Int32(env.word(d.arg));
      if c == 'd' || c == 'i' {
        FmtInt(value, 10, d.min, d.max, d.flags);
      } else if c == 'o' {
        FmtInt(value, 8, d.min, d.max, d.flags.(unsigned := true));
      } else if c == 'u' {
        FmtInt(value, 10, d.min, d.max, d.flags.(unsigned := true));
      } else if c == 'X' {
        FmtInt(value, 16, d.min, d.max, d.flags.(up := true, unsigned := true));
      } else if c == 'x' {
        FmtInt(value, 16, d.min, d.max, d.flags.(unsigned := true));
      } else if c == 'p' {
        FmtInt(value, 16, d.min, d.max, d.flags);
      } else if c == 'c' {
        OutCh((env.word(d.arg) % 256) as char);
      } else if c == 's' {
        var addr := env.word(d.arg) % TWO32;
        var max := d.max;
        if max == -1 {
          max := |StringAt(env, addr)|;
        }
        if d.min > 0 && max >= 0 && d.min > max {
          max := d.min;
        }
        FmtStr(Printable(env, addr), d.flags, d.min, max);
      } else if c == 'f' {
        OutText(env.float(env.word(d.arg), env.word(d.arg + 1), d.min, d.max, d.flags));
      } else if c == '%' {
        OutCh(c);
      }
    }

    /** Stands for `fmtfp`, which only sends characters. */
    method OutText(text: seq<char>)
      requires Valid()
      modifies this`currlen, this`out, buffer
      ensures Valid() && out == old(out) + text
    {
      hide Valid;
      var i := 0;
      while i < |text|
        invariant 0 <= i <= |text| && Valid() && out == old(out) + text[..i]
      {
        OutCh(text[i]);
        assert text[..i + 1] == text[..i] + [text[i]];
        i := i + 1;
      }
      assert text[..i] == text;
    }

    /** The loop of `dopr`: whatever the format, the machine stops, and sends what the format means. */
    method Run(env: Env, format: seq<char>)
      requires Valid() && out == []
      modifies this`currlen, this`out, buffer
      ensures Valid() && out == Render(env, format, 0)
    {
      hide Valid, Remaining, Render, Converted, Words, AfterConversion;
      var state, d := DpDefault, Start(0, format);
      StartRemaining(env, format);
      while state != DpDone
        invariant Valid() && (state == DpDefault ==> d == Start(d.arg, d.rest))
        invariant Render(env, format, 0) == out + Remaining(env, state, d)
        decreases |d.rest|, Rank(state)
      {
        var ch := Head(d.rest);
        if ch == NUL {
          NulEnds(env, state, d);
          NulEnds(env, DpDone, d);
          state := DpDone;
        } else if state == DpDefault {
          DefaultStep(env, d);
          if ch == '%' {
            state := DpFlags;
          } else {
            OutCh(ch);
          }
          d := d.(rest := Tail(d.rest));
        } else if state == DpConv {
          ConvStep(env, d);
          Conversion(env, ch, d);
          state, d := DpDefault, Start(d.arg + Words(ch), AfterConversion(ch, d.rest));
        } else {
          state, d := ReadSpec(env, state, d);
        }
      }
      DoneRemaining(env, d);
    }

    /** `dopr` */
    method Dopr(env: Env, format: seq<char>) returns (length: nat)
      requires Valid() && out == [] && was == buffer[..]
      modifies this`currlen, this`out, buffer
      ensures var text := Render(env, format, 0);
              && length == |text| % TWO32
              && (|text| < TWO32 ==> buffer[..] == Bounded(old(buffer[..]), maxlen, text))
    {
      hide Render, Holds, Bounded;
      Run(env, format);
      if |out| < TWO32 {
        if maxlen == 0 {
          NothingHeld(buffer[..], was, out);
        } else {
          Terminated(buffer[..], was, maxlen, out);
        }
      }
      if maxlen != 0 {
        if currlen < maxlen - 1 {
          buffer[currlen] := NUL;
        } else if maxlen > 0 {
          buffer[maxlen - 1] := NUL;
        }
      }
      length := currlen;
    }

    /** The digits, most significant first. */
    method OutDigits(convert: array<char>, place0: int, ghost digits: seq<char>)
      requires Valid() && convert != buffer && 0 <= place0 <= convert.Length && digits == Reversed(convert[..place0])
      modifies this`currlen, this`out, buffer
      ensures Valid() && out == old(out) + digits
    {
      hide Valid;
      var place := place0;
      ghost var sent: seq<char> := [];
      while place > 0
        invariant Valid() && 0 <= place <= place0
        invariant out == old(out) + sent && digits == sent + Reversed(convert[..place])
      {
        place := place - 1;
        assert convert[..place + 1] == convert[..place] + [convert[place]];
        ReversedNext(convert[..place], convert[place]);
        OutCh(convert[place]);
        sent := sent + [convert[place]];
      }
    }
  }

  lemma Pieces(a: seq<char>, b: seq<char>, c: seq<char>, d: seq<char>, e: seq<char>, f: seq<char>)
    ensures a + b + c + d + e + f == a + (b + c + d + e + f)
    ensures c == [] ==> a + b + d + e + f == a + b + c + d + e + f
  {
    if c == [] {
      assert a + b + c == a + b;
    }
  }

  /** The sign character of `fmtint`, NUL for none, and the unsigned number to print. */
  method SignAndMagnitude(value: int, flags: Flags) returns (signvalue: char, uvalue: nat)
    ensures uvalue == Magnitude(value, flags)
    ensures Sign(value, flags) == if signvalue != NUL then [signvalue] else []
  {
    signvalue, uvalue := NUL, value % TWO32;
    if !flags.unsigned {
      if value < 0 {
        signvalue := '-';
        uvalue := -value % TWO32;
      } else if flags.plus {
        signvalue := '+';
      } else if flags.space {
        signvalue := ' ';
      }
    }
  }

  /** The paddings of `fmtint`; spaces count negative when the field is left justified. */
  method Padding(place: nat, sign: nat, min: int, max0: int, flags: Flags) returns (zpadlen: int, spadlen: int)
    ensures zpadlen == if flags.zero then Max(ZeroPad(place, max0), SpacePad(place, sign, min, Max(max0, 0)))
                       else ZeroPad(place, max0)
    ensures spadlen == if flags.zero then 0
                       else if flags.minus then -SpacePad(place, sign, min, Max(max0, 0))
                       else SpacePad(place, sign, min, Max(max0, 0))
  {
    var max := max0;
    if max < 0 {
      max := 0;
    }
    zpadlen := max - place;
    spadlen := Int32(min - Max(max, place) - sign);
    if zpadlen < 0 {
      zpadlen := 0;
    }
    if spadlen < 0 {
      spadlen := 0;
    }
    if flags.zero {
      zpadlen := Max(zpadlen, spadlen);
      spadlen := 0;
    }
    if flags.minus {
      spadlen := -spadlen;
    }
  }

  lemma SmallDiv(u: nat, base: nat)
    requires u < base
    ensures u / base == 0 && u % base == u
  {
  }

  lemma DigitsStep(u: nat, base: nat, caps: bool)
    requires 2 <= base <= 16
    ensures Digits(u, base, caps)
         == (if u / base == 0 then [] else Digits(u / base, base, caps)) + [DigitChar(u % base, caps)]
    ensures 0 <= u / base && (u / base != 0 ==> u / base < u)
  {
    hide DigitChar;
    if u >= base {
      DivMod(u, base);
    } else {
      SmallDiv(u, base);
    }
  }

  /** The scratch array of `fmtint`: the digits backwards.  It never fills. */
  method Convert(u: nat, base: nat, caps: bool) returns (convert: array<char>, place: int)
    requires 8 <= base <= 16 && u < TWO32
    ensures fresh(convert) && convert.Length == 20 && 0 <= place < 20 && convert[place] == NUL
    ensures Reversed(convert[..place]) == Digits(u, base, caps)
  {
    hide DigitChar, Digits, Reversed;
    convert := new char[20](_ => NUL);
    ghost var digits := Digits(u, base, caps);
    DigitsFit(u, base, caps);
    var uvalue: nat, more := u, true;
    place := 0;
    NothingReversed(convert);
    while more
      invariant 0 <= place <= 20
      invariant more ==> digits == Digits(uvalue, base, caps) + Reversed(convert[..place])
      invariant !more ==> digits == Reversed(convert[..place])
      decreases more, uvalue
    {
      ghost var behind := Reversed(convert[..place]);
      DigitsStep(uvalue, base, caps);
      var c := DigitChar(uvalue % base, caps);
      ReversedNext(convert[..place], c);
      ghost var before := convert[..place];
      convert[place] := c;
      assert convert[..place + 1] == before + [c];
      uvalue, place := uvalue / base, place + 1;
      more := uvalue != 0 && place < 20;
    }
    if place == 20 {
      place := place - 1;
    }
    ghost var text := convert[..place];
    convert[place] := NUL;
    assert convert[..place] == text;
  }

  lemma NothingReversed(a: array<char>)
    ensures Reversed(a[..0]) == []
  {
  }

  /** A `size_t` returned as an `int`, and converted back. */
  lemma IntOfSize(n: nat)
    ensures Int32(n % TWO32) == Int32(n) && Int32(n) % TWO32 == n % TWO32
  {
    var q := n / TWO32;
    assert n == TWO32 * q + n % TWO32;
  }

  /** `vsnprintf` */
  method Vsnprintf(str: array<char>, count: nat, env: Env, format: seq<char>) returns (ret: int)
    requires count <= str.Length && count < TWO32
    modifies str
    ensures var text := Render(env, format, 0);
            && ret == Int32(|text|)
            && (|text| < TWO32 ==> str[..] == Bounded(old(str[..]), count, text))
  {
    hide Render, Bounded;
    var output := new Output(str, count);
    var length := output.Dopr(env, format);
    ret := Int32(length);
    IntOfSize(|Render(env, format, 0)|);
  }

  /** `vasprintf`: measure, allocate, write; `room` is whether `malloc` finds room.  An empty output
      allocates nothing. */
  method Vasprintf(env: Env, format: seq<char>, room: bool) returns (ret: int, ptr: array?<char>)
    ensures var text := Render(env, format, 0);
            |text| < TWO32 - 1 ==>
              && (|text| == 0 ==> ret == 0 && ptr == null)
              && (|text| > 0 && !room ==> ret == -1 && ptr == null)
              && (|text| > 0 && room ==> ret == Int32(|text|) && ptr != null && fresh(ptr) && ptr[..] == text + [NUL])
  {
    hide Render, Int32, Bounded;
    var none := new char[0];
    ptr := null;
    ret := Vsnprintf(none, 0, env, format);
    Measured(|Render(env, format, 0)|);
    var length := ret % TWO32;
    if (length + 1) % TWO32 <= 1 {
      return;
    }
    if !room {
      return -1, null;
    }
    var block := new char[length + 1];
    ghost var was := block[..];
    ret := Vsnprintf(block, length + 1, env, format);
    ptr := block;
    WholeText(was, Render(env, format, 0));
  }

  /** What the measured length is good for. */
  lemma Measured(n: nat)
    ensures Int32(n) % TWO32 == n % TWO32 && Int32(0) == 0
    ensures n < TWO32 - 1 ==> Int32(n) % TWO32 == n && ((n + 1) % TWO32 <= 1 <==> n == 0)
  {
    IntOfSize(n);
  }

  lemma WholeText(was: seq<char>, text: seq<char>)
    ensures |was| == |text| + 1 ==> Bounded(was, |text| + 1, text) == text + [NUL]
  {
  }

  /** A string field as its leading spaces, its text and its spaces behind, each cut at what is left. */
  lemma StringPieces(value: seq<char>, min: int, max: int, flags: Flags)
    ensures var pad := Max(Int32(min - |value|), 0);
            var a := FirstOf(Copies(' ', if flags.minus then 0 else pad), max);
            var b := FirstOf(value, max - |a|);
            StrText(value, min, max, flags)
            == a + b + FirstOf(Copies(' ', if flags.minus then pad else 0), max - (|a| + |b|))
  {
    hide Copies, FirstOf, Int32;
    var n := Int32(min - |value|);
    var pad := Copies(' ', n);
    NoCopies(' ', n);
    CutPieces(Copies(' ', if flags.minus then 0 else Max(n, 0)), value,
              Copies(' ', if flags.minus then Max(n, 0) else 0), max);
    var none: seq<char> := [];
    assert none + value + pad == value + pad;
    assert pad + value + none == pad + value;
  }

  lemma CutPieces(a: seq<char>, b: seq<char>, c: seq<char>, n: int)
    ensures var x := FirstOf(a, n);
            var y := FirstOf(b, n - |x|);
            FirstOf(a + b + c, n) == x + y + FirstOf(c, n - |x| - |y|)
  {
  }

  lemma NoCopies(c: char, n: int)
    ensures Copies(c, 0) == [] && (n <= 0 ==> Copies(c, n) == [])
  {
  }

  lemma PadIsSpaces(n: nat)
    ensures forall i :: 0 <= i < n ==> Copies(' ', n)[i] == ' '
  {
    forall i | 0 <= i < n ensures Copies(' ', n)[i] == ' ' {
      CopiesAll(' ', n, i);
    }
  }
}
