/** Where the integer conversions of the formatter, without the # flag, agree with
    C99, 7.19.6.1, and where the 32-character digit buffer gets in the way. */
module FormatC99 {
  import opened Words
  import opened Buffers
  import opened Digits
  import opened Format
  import opened Bits

  /** The significant digits of a conversion: none for zero with a precision. */
  function Significant(value: U32, base: nat, flags: Flags): string
    requires 2 <= base <= 36
  {
    if flags.precision && value == 0 then "" else Numeral(value, base, flags.upper)
  }

  /** C99: at least prec digits, a sign, and a field filled with spaces on either
      side or with zeros behind the sign. */
  function C99Text(value: U32, negative: bool, base: nat, prec: nat, width: nat, flags: Flags): string
    requires 2 <= base <= 36
  {
    C99Field(Significant(value, base, flags), Sign(negative, flags), prec, width, flags)
  }

  function C99Field(d: string, s: string, prec: nat, width: nat, flags: Flags): string {
    var digits := Repeat('0', prec - |d|) + d;
    var fill := width - |s| - |digits|;
    if flags.left then s + digits + Repeat(' ', fill)
    else if flags.zeroPad then s + Repeat('0', fill) + digits
    else Repeat(' ', fill) + s + digits
  }

  /** What the parser of directives hands on: no precision reads as 0, and turns
      the 0 flag off otherwise; a sign comes with decimal conversions only. */
  ghost predicate Parsed(negative: bool, base: nat, prec: nat, flags: Flags) {
    && (!flags.precision ==> prec == 0)
    && (flags.precision ==> !flags.zeroPad)
    && !flags.hash
    && 2 <= base <= 36
    && (Sign(negative, flags) != "" ==> base >= 4)
  }

  /** Where the code conforms, in terms of what the caller asks for: the code
      ignores a precision together with the - flag, and has room for 32 digits
      and a sign. */
  predicate Conforms(value: U32, negative: bool, base: nat, prec: nat, width: nat, flags: Flags)
    requires 2 <= base <= 36
  {
    var s := Sign(negative, flags);
    if flags.left then prec <= |Significant(value, base, flags)|
    else if flags.zeroPad then width <= NTOA_BUFFER_SIZE
    else prec < NTOA_BUFFER_SIZE
         || (prec == NTOA_BUFFER_SIZE && (s == "" || (s == " " && width > NTOA_BUFFER_SIZE)))
  }

  lemma ReverseTwice(s: string)
    ensures Reverse(Reverse(s)) == s
  {
  }

  lemma ReverseExtended(d: string, n: int)
    ensures Reverse(Extend(Reverse(d), '0', n)) == Repeat('0', n - |d|) + d
  {
  }

  lemma ReverseSigned(buf: string, s: string)
    requires |s| <= 1
    ensures Reverse(buf + s) == s + Reverse(buf)
  {
  }

  lemma SignificantLength(value: U32, base: nat, flags: Flags)
    requires 2 <= base <= 36
    ensures |Significant(value, base, flags)| <= 32
    ensures base >= 4 ==> |Significant(value, base, flags)| <= 16
    ensures !flags.precision ==> |Significant(value, base, flags)| >= 1
    ensures value != 0 ==> Significant(value, base, flags) != "" && Significant(value, base, flags)[0] != '0'
  {
    DigitsOfWord(value, base);
    if value != 0 {
      assert ToDigits(value, base)[0] != 0;
      assert DigitOf(Numeral(value, base, flags.upper)[0]) != 0;
    }
  }

  lemma NothingForZero(value: U32, base: nat, flags: Flags)
    requires 2 <= base <= 36
    ensures flags.precision && value == 0 ==> Significant(value, base, flags) == ""
  {
  }

  /** The zeros and digits that the code puts in the buffer, in reading order. */
  function CodeDigits(d: string, prec: nat, w: nat, flags: Flags): string {
    var k := if flags.left then 0
             else if flags.zeroPad then Max(Min(prec, NTOA_BUFFER_SIZE), Min(w, NTOA_BUFFER_SIZE))
             else Min(prec, NTOA_BUFFER_SIZE);
    Repeat('0', k - |d|) + d
  }

  lemma ZeroPaddedReversed(d: string, prec: nat, w: nat, flags: Flags)
    ensures Reverse(ZeroPadded(Reverse(d), prec, w, flags)) == CodeDigits(d, prec, w, flags)
  {
    if flags.left {
      ReverseTwice(d);
    } else {
      var k, m := Min(prec, NTOA_BUFFER_SIZE), Min(w, NTOA_BUFFER_SIZE);
      var b := Extend(Reverse(d), '0', k);
      ReverseExtended(d, k);
      if flags.zeroPad {
        var e := Repeat('0', k - |d|) + d;
        ReverseTwice(b);
        assert Reverse(e) == b;
        ReverseExtended(e, m);
        assert Repeat('0', m - |e|) + Repeat('0', k - |d|) == Repeat('0', Max(k, m) - |d|);
      }
    }
  }

  /** Digits in reading order, signed if there is room, in their field. */
  function InField(digits: string, negative: bool, w: nat, flags: Flags): string {
    var s := if |digits| < NTOA_BUFFER_SIZE then Sign(negative, flags) else "";
    (if flags.left || flags.zeroPad then "" else Repeat(' ', w - |s| - |digits|))
    + (s + digits)
    + (if flags.left then Repeat(' ', w - |s| - |digits|) else "")
  }

  lemma OutRevReading(buf: string, negative: bool, w: nat, flags: Flags)
    ensures OutRevText(Signed(buf, negative, flags), w, flags) == InField(Reverse(buf), negative, w, flags)
  {
    var s := if |buf| < NTOA_BUFFER_SIZE then Sign(negative, flags) else "";
    assert |s| <= 1 && Signed(buf, negative, flags) == buf + s by {
      assert buf + "" == buf;
    }
    hide Sign, Signed, Repeat;
    ReverseSigned(buf, s);
  }

  /** The text of the code, put in reading order. */
  lemma CodeText(value: U32, negative: bool, base: nat, prec: nat, width: nat, flags: Flags)
    requires !flags.hash && 2 <= base <= 36
    ensures var w := if flags.left then width else ZeroWidth(negative, width, flags);
            NtoaLongText(value, negative, base, prec, width, flags)
            == InField(CodeDigits(Significant(value, base, flags), prec, w, flags), negative, w, flags)
  {
    hide CodeDigits, OutRevText, Signed, InField, Reverse, ZeroPadded, ZeroWidth, Significant, NtoaLongText;
    var d := Significant(value, base, flags);
    var w := if flags.left then width else ZeroWidth(negative, width, flags);
    Unhashed(value, negative, base, prec, width, flags);
    ZeroPaddedReversed(d, prec, w, flags);
    OutRevReading(ZeroPadded(Reverse(d), prec, w, flags), negative, w, flags);
  }

  /** Without the # flag the code goes straight from the zeros to the sign. */
  lemma Unhashed(value: U32, negative: bool, base: nat, prec: nat, width: nat, flags: Flags)
    requires !flags.hash && 2 <= base <= 36
    ensures var w := if flags.left then width else ZeroWidth(negative, width, flags);
            NtoaLongText(value, negative, base, prec, width, flags)
            == OutRevText(Signed(ZeroPadded(Reverse(Significant(value, base, flags)), prec, w, flags), negative, flags), w, flags)
  {
    hide OutRevText, Signed, Reverse, ZeroPadded, ZeroWidth, Numeral;
    assert flags.(hash := false) == flags;
  }

  /** What the three cases know about the digits and the sign. */
  ghost predicate Ready(d: string, negative: bool, prec: nat, flags: Flags) {
    && |d| <= 32 && (Sign(negative, flags) != "" ==> |d| <= 16)
    && (!flags.precision ==> prec == 0 && |d| >= 1)
    && (flags.precision ==> !flags.zeroPad)
  }

  lemma IsReady(value: U32, negative: bool, base: nat, prec: nat, flags: Flags)
    requires Parsed(negative, base, prec, flags)
    ensures var d := Significant(value, base, flags);
            Ready(d, negative, prec, flags) && (flags.precision && d != "" ==> d[0] != '0')
  {
    SignificantLength(value, base, flags);
    NothingForZero(value, base, flags);
  }

  /** The - flag: the zeros of a precision are missing. */
  lemma LeftCase(d: string, negative: bool, prec: nat, width: nat, flags: Flags)
    requires Ready(d, negative, prec, flags) && flags.left
    requires flags.precision && d != "" ==> d[0] != '0'
    ensures (InField(CodeDigits(d, prec, width, flags), negative, width, flags)
             == C99Field(d, Sign(negative, flags), prec, width, flags)) <==> prec <= |d|
  {
    var s := Sign(negative, flags);
    var code := InField(CodeDigits(d, prec, width, flags), negative, width, flags);
    var c99 := C99Field(d, s, prec, width, flags);
    assert CodeDigits(d, prec, width, flags) == d;
    assert code == s + d + Repeat(' ', width - |s| - |d|);
    if prec <= |d| {
      assert Repeat('0', prec - |d|) == "";
    } else {
      assert c99[|s|] == '0';
      assert |code| > |s| ==> code[|s|] == if d != "" then d[0] else ' ';
    }
  }

  lemma ZeroCode(d: string, negative: bool, prec: nat, w: nat, flags: Flags)
    requires Ready(d, negative, prec, flags) && !flags.left && flags.zeroPad
    ensures var digits := Repeat('0', Min(w, NTOA_BUFFER_SIZE) - |d|) + d;
            InField(CodeDigits(d, prec, w, flags), negative, w, flags)
            == (if |digits| < NTOA_BUFFER_SIZE then Sign(negative, flags) else "") + digits
  {
    hide Sign, ZeroWidth;
  }

  lemma ZeroC99(d: string, s: string, prec: nat, width: nat, flags: Flags)
    requires prec == 0 && !flags.left && flags.zeroPad
    ensures C99Field(d, s, prec, width, flags) == s + (Repeat('0', width - |s| - |d|) + d)
  {
    assert Repeat('0', 0 - |d|) + d == d;
  }

  /** Zeros up to the width: the buffer has room for 32. */
  lemma ZeroCase(d: string, negative: bool, prec: nat, width: nat, flags: Flags)
    requires Ready(d, negative, prec, flags) && !flags.left && flags.zeroPad
    ensures var w := ZeroWidth(negative, width, flags);
            (InField(CodeDigits(d, prec, w, flags), negative, w, flags)
             == C99Field(d, Sign(negative, flags), prec, width, flags)) <==> width <= NTOA_BUFFER_SIZE
  {
    hide InField, CodeDigits, C99Field, Repeat;
    var s, w := Sign(negative, flags), ZeroWidth(negative, width, flags);
    ZeroCode(d, negative, prec, w, flags);
    ZeroC99(d, s, prec, width, flags);
    var digits := Repeat('0', Min(w, NTOA_BUFFER_SIZE) - |d|) + d;
    var c99 := s + (Repeat('0', width - |s| - |d|) + d);
    assert w == if s == "" || width == 0 then width else width - 1;
    assert |s| <= 1 && (s != "" ==> |d| <= 16);
    hide ZeroWidth, Sign;
    if width > NTOA_BUFFER_SIZE {
      assert |c99| == width;
      assert |digits| == NTOA_BUFFER_SIZE;
    } else {
      NoRepeat(w - |d|, width - |s| - |d|);
      assert c99 == s + digits;
    }
  }

  lemma NoRepeat(n: int, m: int)
    requires n == m || (n <= 0 && m <= 0)
    ensures Repeat('0', n) == Repeat('0', m)
  {
  }

  /** A sign that finds the buffer full is dropped. */
  lemma SpaceCode(digits: string, negative: bool, width: nat, flags: Flags)
    requires !flags.left && !flags.zeroPad
    ensures var s := if |digits| < NTOA_BUFFER_SIZE then Sign(negative, flags) else "";
            InField(digits, negative, width, flags) == Repeat(' ', width - |s| - |digits|) + s + digits
  {
  }

  lemma SpaceC99(d: string, s: string, prec: nat, width: nat, flags: Flags)
    requires !flags.left && !flags.zeroPad
    ensures var all := Repeat('0', prec - |d|) + d;
            C99Field(d, s, prec, width, flags) == Repeat(' ', width - |s| - |all|) + s + all
  {
  }

  lemma SpaceDigits(d: string, prec: nat, width: nat, flags: Flags)
    requires !flags.left && !flags.zeroPad
    ensures CodeDigits(d, prec, width, flags) == Repeat('0', Min(prec, NTOA_BUFFER_SIZE) - |d|) + d
    ensures prec > NTOA_BUFFER_SIZE && |d| <= 32 ==> (Repeat('0', prec - |d|) + d)[prec - NTOA_BUFFER_SIZE - 1] == '0'
  {
  }

  /** Spaces up to the width: the buffer has room for 32 characters, digits and
      sign together. */
  lemma SpaceCase(d: string, negative: bool, prec: nat, width: nat, flags: Flags)
    requires Ready(d, negative, prec, flags) && !flags.left && !flags.zeroPad
    ensures var s := Sign(negative, flags);
            (InField(CodeDigits(d, prec, width, flags), negative, width, flags)
             == C99Field(d, s, prec, width, flags))
            <==> prec < NTOA_BUFFER_SIZE
                 || (prec == NTOA_BUFFER_SIZE && (s == "" || (s == " " && width > NTOA_BUFFER_SIZE)))
  {
    hide InField, CodeDigits, C99Field, Repeat;
    var s := Sign(negative, flags);
    var digits := Repeat('0', Min(prec, NTOA_BUFFER_SIZE) - |d|) + d;
    var all := Repeat('0', prec - |d|) + d;
    SpaceDigits(d, prec, width, flags);
    SpaceCode(digits, negative, width, flags);
    SpaceC99(d, s, prec, width, flags);
    assert |s| <= 1 && (s != "" ==> |d| <= 16);
    hide Sign;
    if prec < NTOA_BUFFER_SIZE {
      assert s == "" || |digits| < NTOA_BUFFER_SIZE;
      assert digits == all;
    } else if prec > NTOA_BUFFER_SIZE || s != "" {
      SpaceDiffers(digits, all, s, prec, width);
    }
  }

  /** A full digit buffer: all that could still agree is a space for a sign. */
  lemma SpaceDiffers(digits: string, all: string, s: string, prec: nat, width: nat)
    requires |digits| == NTOA_BUFFER_SIZE && |all| == prec && |s| <= 1
    requires prec > NTOA_BUFFER_SIZE || (prec == NTOA_BUFFER_SIZE && s != "" && all == digits)
    requires prec > NTOA_BUFFER_SIZE ==> all[prec - NTOA_BUFFER_SIZE - 1] == '0'
    ensures (Repeat(' ', width - NTOA_BUFFER_SIZE) + digits == Repeat(' ', width - |s| - |all|) + s + all)
            <==> prec == NTOA_BUFFER_SIZE && s == " " && width > NTOA_BUFFER_SIZE
  {
    var code, c99 := Repeat(' ', width - NTOA_BUFFER_SIZE) + digits, Repeat(' ', width - |s| - |all|) + s + all;
    if width > NTOA_BUFFER_SIZE {
      assert code[width - NTOA_BUFFER_SIZE - 1] == ' ';
    }
  }

  /** Without the # flag, an integer conversion gives what C99 asks for exactly
      when the precision and the width leave the digit buffer room, and the -
      flag comes without a precision that adds zeros. */
  lemma C99Exactly(value: U32, negative: bool, base: nat, prec: nat, width: nat, flags: Flags)
    requires Parsed(negative, base, prec, flags)
    ensures NtoaLongText(value, negative, base, prec, width, flags) == C99Text(value, negative, base, prec, width, flags)
            <==> Conforms(value, negative, base, prec, width, flags)
  {
    var d := Significant(value, base, flags);
    hide NtoaLongText, Significant, InField, CodeDigits, C99Field, ZeroWidth, Numeral, Ready, Parsed, Sign;
    IsReady(value, negative, base, prec, flags);
    CodeText(value, negative, base, prec, width, flags);
    if flags.left {
      LeftCase(d, negative, prec, width, flags);
    } else if flags.zeroPad {
      ZeroCase(d, negative, prec, width, flags);
    } else {
      ZeroWidthUnused(negative, width, flags);
      SpaceCase(d, negative, prec, width, flags);
    }
  }

  lemma ZeroWidthUnused(negative: bool, width: nat, flags: Flags)
    requires !flags.zeroPad
    ensures ZeroWidth(negative, width, flags) == width
  {
  }

  // ---- the tables of C99, 7.19.6.1

  /** The integer conversions, and b, which C99 does not have. */
  predicate C99Integer(conv: char) {
    conv in "diuoxXb"
  }

  predicate C99Signed(conv: char) {
    conv == 'd' || conv == 'i'
  }

  function C99Base(conv: char): (base: nat)
    requires C99Integer(conv)
    ensures 2 <= base <= 16
  {
    match conv
    case 'o' => 8
    case 'x' => 16
    case 'X' => 16
    case 'b' => 2
    case _ => 10
  }

  /** The flags that count: # not for decimal numbers, + and the space for signed
      ones, 0 without a precision, and capitals for X. */
  function C99Flags(flags: Flags, conv: char): Flags
    requires C99Integer(conv)
  {
    flags.(hash := flags.hash && C99Base(conv) != 10,
           plus := flags.plus && C99Signed(conv),
           space := flags.space && C99Signed(conv),
           zeroPad := flags.zeroPad && !flags.precision,
           upper := flags.upper || conv == 'X')
  }

  /** The size of the argument that the length names. */
  function C99Bits(flags: Flags): nat {
    if flags.long then 32 else if flags.char8 then 8 else if flags.short then 16 else 32
  }

  /** The argument as a number of that size, in two's complement if signed. */
  function C99Value(word: U32, conv: char, flags: Flags): (v: int)
    ensures -0x8000_0000 <= v < U32_MODULUS && (v < 0 ==> C99Signed(conv))
  {
    PowersOfTwo();
    var m := Pow2(C99Bits(flags));
    var v := word % m;
    if C99Signed(conv) && 2 * v >= m then v - m else v
  }

  lemma PowersOfTwo()
    ensures Pow2(8) == 0x100 && Pow2(16) == 0x1_0000 && Pow2(32) == U32_MODULUS
  {
    assert Pow2(8) == 0x100;
    assert Pow2(16) == 0x1_0000;
    assert Pow2(24) == 0x100_0000;
  }

  lemma TablesAgree(conv: char)
    ensures IsInteger(conv) <==> C99Integer(conv)
    ensures IsSigned(conv) <==> C99Signed(conv)
    ensures C99Integer(conv) ==> BaseOf(conv) == C99Base(conv)
  {
  }

  lemma DecimalIs(f: Flags, base: nat)
    ensures DecimalFlags(f, base) == f.(hash := f.hash && base != 10)
  {
  }

  lemma CaseIs(f: Flags, conv: char)
    ensures CaseFlags(f, conv) == f.(upper := f.upper || conv == 'X')
  {
  }

  lemma SignIs(f: Flags, conv: char)
    ensures SignFlags(f, conv) == f.(plus := f.plus && IsSigned(conv), space := f.space && IsSigned(conv))
  {
  }

  lemma PrecisionIs(f: Flags)
    ensures PrecisionFlags(f) == f.(zeroPad := f.zeroPad && !f.precision)
  {
  }

  lemma FlagsAgree(flags: Flags, conv: char)
    requires C99Integer(conv)
    ensures IntegerFlags(flags, conv) == C99Flags(flags, conv)
  {
    TablesAgree(conv);
    hide IsSigned, BaseOf, C99Base, C99Integer, C99Signed, DecimalFlags, CaseFlags, SignFlags, PrecisionFlags;
    var cased := CaseFlags(DecimalFlags(flags, BaseOf(conv)), conv);
    TwoSteps(flags, BaseOf(conv), conv);
    SignIs(cased, conv);
    PrecisionIs(SignFlags(cased, conv));
  }

  lemma TwoSteps(f: Flags, base: nat, conv: char)
    ensures CaseFlags(DecimalFlags(f, base), conv) == f.(hash := f.hash && base != 10, upper := f.upper || conv == 'X')
  {
    hide DecimalFlags, CaseFlags;
    DecimalIs(f, base);
    CaseIs(DecimalFlags(f, base), conv);
  }

  /** The number that an integer conversion writes. */
  function Converted(word: U32, conv: char, flags: Flags): (v: int)
    ensures -0x8000_0000 <= v < U32_MODULUS
  {
    if IsSigned(conv) then SignedOf(word, flags) else UnsignedOf(word, flags)
  }

  lemma ValuesAgree(word: U32, conv: char, flags: Flags)
    ensures Converted(word, conv, flags) == C99Value(word, conv, flags)
  {
    PowersOfTwo();
    hide Pow2;
  }

  function Magnitude(v: int): (m: U32)
    requires -0x8000_0000 <= v < U32_MODULUS
  {
    if v < 0 then -v else v
  }

  lemma WidthOnly(fmt: string, d: Directive, va: Args)
    requires d.next <= |fmt|
    ensures ParseWidth(fmt, d, va).precision == d.precision
  {
    hide ParseNumber;
  }

  lemma PrecisionOrNone(fmt: string, d: Directive, va: Args)
    requires d.next <= |fmt|
    ensures var e := ParsePrecision(fmt, d, va);
            e.flags.precision || e.precision == d.precision
  {
    hide ParseNumber;
  }

  lemma LengthOnly(fmt: string, d: Directive)
    requires d.next <= |fmt|
    ensures ParseLength(fmt, d).precision == d.precision
    ensures ParseLength(fmt, d).flags.precision == d.flags.precision
  {
    assert forall twice :: LongLength(d.flags, twice).precision == d.flags.precision;
    assert MaxLength(d.flags).precision == d.flags.precision;
    assert forall twice :: ShortLength(d.flags, twice).precision == d.flags.precision;
    hide LongLength, ShortLength, MaxLength;
  }

  /** A directive without a precision has precision 0. */
  lemma NoPrecision(fmt: string, i: nat, va: Args, arg: nat)
    requires i <= |fmt|
    ensures var d := ParseDirective(fmt, i, va, arg);
            !d.flags.precision ==> d.precision == 0
  {
    hide ParseFlags, ParseWidth, ParsePrecision, ParseLength;
    var f := ParseFlags(fmt, i, NO_FLAGS);
    var start := Directive(f.0, 0, 0, f.1, arg);
    var w := ParseWidth(fmt, start, va);
    WidthOnly(fmt, start, va);
    PrecisionOrNone(fmt, w, va);
    LengthOnly(fmt, ParsePrecision(fmt, w, va));
  }

  /** The flags of an integer conversion are as its sign, base and precision need. */
  lemma IntegerIsParsed(negative: bool, conv: char, prec: nat, flags: Flags)
    requires C99Integer(conv) && (flags.hash ==> C99Base(conv) == 10) && (flags.precision || prec == 0)
    requires negative ==> C99Signed(conv)
    ensures Parsed(negative, C99Base(conv), prec, IntegerFlags(flags, conv))
    ensures IntegerFlags(flags, conv).longLong == flags.longLong
  {
    FlagsAgree(flags, conv);
    hide IntegerFlags;
  }

  /** An integer conversion writes its number in its base. */
  lemma IntegerTextIs(word: U32, conv: char, prec: nat, width: nat, flags: Flags)
    requires C99Integer(conv) && !flags.longLong
    ensures var f := C99Flags(flags, conv);
            var v := C99Value(word, conv, f);
            IntegerText(word, conv, prec, width, flags)
            == NtoaLongText(Magnitude(v), v < 0, C99Base(conv), prec, width, f)
  {
    hide NtoaLongText, SignedOf, UnsignedOf, IntegerFlags, C99Value, C99Base, BaseOf;
    var f := C99Flags(flags, conv);
    FlagsAgree(flags, conv);
    TablesAgree(conv);
    ValuesAgree(word, conv, f);
  }

  /** An integer conversion, without # and long long, gives what C99 asks for
      exactly when it Conforms. */
  lemma IntegerC99(word: U32, conv: char, prec: nat, width: nat, flags: Flags)
    requires C99Integer(conv) && (flags.hash ==> C99Base(conv) == 10) && !flags.longLong
    requires flags.precision || prec == 0
    ensures var f := C99Flags(flags, conv);
            var v := C99Value(word, conv, f);
            (IntegerText(word, conv, prec, width, flags) == C99Text(Magnitude(v), v < 0, C99Base(conv), prec, width, f))
            <==> Conforms(Magnitude(v), v < 0, C99Base(conv), prec, width, f)
  {
    hide NtoaLongText, C99Text, Conforms, IntegerText, IntegerFlags, Parsed, C99Flags, C99Base;
    var f := C99Flags(flags, conv);
    var v := C99Value(word, conv, f);
    FlagsAgree(flags, conv);
    IntegerTextIs(word, conv, prec, width, flags);
    IntegerIsParsed(v < 0, conv, prec, flags);
    C99Exactly(Magnitude(v), v < 0, C99Base(conv), prec, width, f);
  }

  // ---- directives

  /** A precision given by an argument that is negative. */
  predicate NegativeStar(fmt: string, i: nat, va: Args, arg: nat)
    requires i <= |fmt|
  {
    var f := ParseFlags(fmt, i, NO_FLAGS);
    var w := ParseWidth(fmt, Directive(f.0, 0, 0, f.1, arg), va);
    CharAt(fmt, w.next) == '.' && CharAt(fmt, w.next + 1) == '*' && ToInt32(va(w.arg).word) < 0
  }

  /** The directive as C99 reads it: a negative precision is as good as none. The
      code takes it for 0. */
  function StandardDirective(fmt: string, i: nat, va: Args, arg: nat): Directive
    requires i <= |fmt|
  {
    var d := ParseDirective(fmt, i, va, arg);
    if NegativeStar(fmt, i, va, arg) then d.(flags := d.flags.(precision := false)) else d
  }

  lemma StarPrecision(fmt: string, d: Directive, va: Args)
    requires d.next <= |fmt| && CharAt(fmt, d.next) == '.' && CharAt(fmt, d.next + 1) == '*'
    requires ToInt32(va(d.arg).word) < 0
    ensures var e := ParsePrecision(fmt, d, va); e.flags.precision && e.precision == 0
  {
    hide ParseNumber;
  }

  /** The code reads a negative precision as 0. */
  lemma NegativeStarRead(fmt: string, i: nat, va: Args, arg: nat)
    requires i <= |fmt| && NegativeStar(fmt, i, va, arg)
    ensures var d := ParseDirective(fmt, i, va, arg); d.flags.precision && d.precision == 0
  {
    hide ParseFlags, ParseWidth, ParsePrecision, ParseLength;
    var f := ParseFlags(fmt, i, NO_FLAGS);
    var w := ParseWidth(fmt, Directive(f.0, 0, 0, f.1, arg), va);
    StarPrecision(fmt, w, va);
    LengthOnly(fmt, ParsePrecision(fmt, w, va));
  }

  /** Where a negative precision does no harm: the number is not 0, and there are
      no zeros to fill the field with. */
  predicate StarConforms(value: U32, negative: bool, base: nat, width: nat, flags: Flags)
    requires 2 <= base <= 36
  {
    value != 0
    && (flags.left || !flags.zeroPad || width <= |Sign(negative, flags)| + |Numeral(value, base, flags.upper)|)
  }

  /** f is g with a precision, and therefore without zeros to fill the field. */
  ghost predicate Dropped(f: Flags, g: Flags) {
    && f.precision && !g.precision && !f.zeroPad
    && f.left == g.left && f.plus == g.plus && f.space == g.space && f.upper == g.upper
    && f.long == g.long && f.char8 == g.char8 && f.short == g.short
  }

  /** C99 with precision 0, and without one. */
  lemma ZeroOrNone(value: U32, negative: bool, base: nat, width: nat, f: Flags, g: Flags)
    requires 2 <= base <= 36 && Dropped(f, g)
    ensures C99Text(value, negative, base, 0, width, f) == C99Text(value, negative, base, 0, width, g)
            <==> StarConforms(value, negative, base, width, g)
  {
    var s, n := Sign(negative, g), Numeral(value, base, g.upper);
    assert Sign(negative, f) == s;
    DigitsOfWord(value, base);
    var d := if value == 0 then "" else n;
    assert value == 0 ==> n == "0";
    hide Numeral, Sign;
    assert Significant(value, base, f) == d && Significant(value, base, g) == n;
    FieldDiffers(d, n, s, width, f, g);
  }

  /** No digits for a zero, or spaces for zeros, make another field. */
  lemma FieldDiffers(d: string, n: string, s: string, width: nat, f: Flags, g: Flags)
    requires Dropped(f, g)
    requires d == n || (d == "" && n == "0")
    requires n != "" && |s| <= 1 && (s == "" || s[0] != '0')
    ensures C99Field(d, s, 0, width, f) == C99Field(n, s, 0, width, g)
            <==> d == n && (g.left || !g.zeroPad || width <= |s| + |n|)
  {
    assert Repeat('0', 0 - |d|) + d == d && Repeat('0', 0 - |n|) + n == n;
    hide Repeat;
    if g.left {
      LeftDiffers(d, n, s, width);
    } else {
      BlanksDiffer(d, n, s, width, g.zeroPad);
    }
  }

  lemma LeftDiffers(d: string, n: string, s: string, width: nat)
    requires (d == n || (d == "" && n == "0")) && n != ""
    ensures s + d + Repeat(' ', width - |s| - |d|) == s + n + Repeat(' ', width - |s| - |n|) <==> d == n
  {
    var code, c99 := s + d + Repeat(' ', width - |s| - |d|), s + n + Repeat(' ', width - |s| - |n|);
    if d != n {
      assert c99[|s|] == '0' && (|code| > |s| ==> code[|s|] == ' ');
    }
  }

  lemma BlanksDiffer(d: string, n: string, s: string, width: nat, zeros: bool)
    requires (d == n || (d == "" && n == "0")) && n != "" && |s| <= 1 && (s == "" || s[0] != '0')
    ensures var fill := width - |s| - |n|;
            Repeat(' ', width - |s| - |d|) + s + d
            == (if zeros then s + Repeat('0', fill) + n else Repeat(' ', fill) + s + n)
            <==> d == n && (!zeros || fill <= 0)
  {
    var fill := width - |s| - |n|;
    var code := Repeat(' ', width - |s| - |d|) + s + d;
    var c99 := if zeros then s + Repeat('0', fill) + n else Repeat(' ', fill) + s + n;
    if d != n {
      LastDiffers(code, c99, d, n, s);
    } else if zeros && fill > 0 {
      assert code[|s|] == ' ' || (s != "" && code[|s|] == s[0]);
      assert c99[|s|] == '0';
    } else {
      assert fill <= 0 ==> Repeat('0', fill) == "" && Repeat(' ', fill) == "";
    }
  }

  /** A text that ends in a 0 is none that ends in spaces or in a sign. */
  lemma LastDiffers(code: string, c99: string, d: string, n: string, s: string)
    requires exists k: int :: code == Repeat(' ', k) + s + d
    requires |c99| >= |n| && c99[|c99| - |n|..] == n && n != ""
    requires (d == n || (d == "" && n == "0")) && |s| <= 1 && (s == "" || s[0] != '0')
    ensures d != n ==> code != c99
  {
    if d != n {
      var k: int :| code == Repeat(' ', k) + s + d;
      assert c99[|c99| - 1] == c99[|c99| - |n|..][0] == '0';
      if code != "" {
        assert code[|code| - 1] == if s == "" then ' ' else s[0];
      }
    }
  }

  lemma AlwaysConforms(value: U32, negative: bool, base: nat, width: nat, f: Flags)
    requires 2 <= base <= 36 && f.precision && !f.zeroPad
    ensures Conforms(value, negative, base, 0, width, f)
  {
    hide Significant, Sign;
  }

  lemma FlagsDropped(flags: Flags, conv: char)
    requires C99Integer(conv) && flags.precision
    ensures Dropped(C99Flags(flags, conv), C99Flags(flags.(precision := false), conv))
  {
  }

  lemma SameValue(word: U32, conv: char, f: Flags, g: Flags)
    requires Dropped(f, g)
    ensures C99Value(word, conv, f) == C99Value(word, conv, g)
  {
  }

  /** An integer conversion with a negative precision. */
  lemma StarC99(word: U32, conv: char, width: nat, flags: Flags)
    requires C99Integer(conv) && (flags.hash ==> C99Base(conv) == 10) && !flags.longLong && flags.precision
    ensures var g := C99Flags(flags.(precision := false), conv);
            var v := C99Value(word, conv, g);
            (IntegerText(word, conv, 0, width, flags) == C99Text(Magnitude(v), v < 0, C99Base(conv), 0, width, g))
            <==> StarConforms(Magnitude(v), v < 0, C99Base(conv), width, g)
  {
    hide IntegerText, C99Text, C99Flags, StarConforms, Conforms, C99Value, C99Base;
    var f, g := C99Flags(flags, conv), C99Flags(flags.(precision := false), conv);
    FlagsDropped(flags, conv);
    var v := C99Value(word, conv, f);
    IntegerC99(word, conv, 0, width, flags);
    SameValue(word, conv, f, g);
    AlwaysConforms(Magnitude(v), v < 0, C99Base(conv), width, f);
    ZeroOrNone(Magnitude(v), v < 0, C99Base(conv), width, f, g);
  }

  /** Every integer directive, from its text in the format: without # and long
      long, the code writes what C99 asks for exactly when it conforms. */
  lemma DirectiveC99(fmt: string, i: nat, va: Args, arg: nat, conv: char)
    requires i <= |fmt| && C99Integer(conv)
    requires var d := ParseDirective(fmt, i, va, arg); (d.flags.hash ==> C99Base(conv) == 10) && !d.flags.longLong
    ensures var d, e := ParseDirective(fmt, i, va, arg), StandardDirective(fmt, i, va, arg);
            var f := C99Flags(e.flags, conv);
            var v := C99Value(va(d.arg).word, conv, f);
            (ConversionText(d, conv, va).0 == C99Text(Magnitude(v), v < 0, C99Base(conv), e.precision, e.width, f))
            <==> (if NegativeStar(fmt, i, va, arg) then StarConforms(Magnitude(v), v < 0, C99Base(conv), e.width, f)
                  else Conforms(Magnitude(v), v < 0, C99Base(conv), e.precision, e.width, f))
  {
    NoPrecision(fmt, i, va, arg);
    TablesAgree(conv);
    if NegativeStar(fmt, i, va, arg) {
      NegativeStarRead(fmt, i, va, arg);
    }
    hide ParseDirective, NegativeStar, IntegerText, C99Text, Conforms, StarConforms, C99Value, C99Flags, C99Base, Padded;
    hide C99Integer, IsInteger;
    var d := ParseDirective(fmt, i, va, arg);
    if NegativeStar(fmt, i, va, arg) {
      StarC99(va(d.arg).word, conv, d.width, d.flags);
    } else {
      IntegerC99(va(d.arg).word, conv, d.precision, d.width, d.flags);
    }
  }

  // ---- where the code departs from C99

  /** 5 with %-.3d: the zeros of the precision are missing. */
  lemma LeftPrecision()
    ensures var f := NO_FLAGS.(left := true, precision := true);
            IntegerText(5, 'd', 3, 0, f) == "5" && C99Text(5, false, 10, 3, 0, C99Flags(f, 'd')) == "005"
  {
    hide NtoaLongText, IntegerFlags, C99Flags, Significant, C99Field, Numeral, SignedOf, ToDigits, Pow2;
    var f := NO_FLAGS.(left := true, precision := true);
    Five(f);
    LeftFive(f);
    FiveText(f, 5);
  }

  lemma FiveText(f: Flags, n: U32)
    requires !f.longLong && IntegerFlags(f, 'd') == f && SignedOf(n, f) == n
    ensures IntegerText(n, 'd', 3, 0, f) == NtoaLongText(n, false, 10, 3, 0, f)
  {
    hide NtoaLongText, IntegerFlags, SignedOf;
  }

  lemma Five(f: Flags)
    requires f == NO_FLAGS.(left := true, precision := true)
    ensures IntegerFlags(f, 'd') == f && C99Flags(f, 'd') == f && SignedOf(5, f) == 5 && Significant(5, 10, f) == "5"
  {
    assert ToDigits(5, 10) == [5];
    assert Numeral(5, 10, false) == "5";
  }

  lemma LeftFive(f: Flags)
    requires f == NO_FLAGS.(left := true, precision := true) && Significant(5, 10, f) == "5"
    ensures NtoaLongText(5, false, 10, 3, 0, f) == "5" && C99Text(5, false, 10, 3, 0, f) == "005"
  {
    hide NtoaLongText, CodeDigits, InField, Significant, C99Field;
    CodeText(5, false, 10, 3, 0, f);
    LeftCode("5", 3, f);
    LeftStandard("5", 3, f);
    assert Repeat('0', 2) + "5" == "005";
  }

  lemma LeftCode(d: string, prec: nat, f: Flags)
    requires f.left && Sign(false, f) == ""
    ensures InField(CodeDigits(d, prec, 0, f), false, 0, f) == d
  {
    assert CodeDigits(d, prec, 0, f) == d;
    assert Repeat(' ', 0 - |d|) == "";
  }

  lemma LeftStandard(d: string, prec: nat, f: Flags)
    requires f.left
    ensures C99Field(d, "", prec, 0, f) == Repeat('0', prec - |d|) + d
  {
  }

  /** 5 with %033d: the field is one character too short. */
  lemma WideZeros()
    ensures var f := NO_FLAGS.(zeroPad := true);
            |IntegerText(5, 'd', 0, 33, f)| == 32 && |C99Text(5, false, 10, 0, 33, C99Flags(f, 'd'))| == 33
  {
    assert ToDigits(5, 10) == [5];
    assert |Numeral(5, 10, false)| == 1;
  }

  /** 0 with %.*d and -1: no digit is written. */
  lemma NegativeStarZero()
    ensures IntegerText(0, 'd', 0, 0, NO_FLAGS.(precision := true)) == ""
    ensures C99Text(0, false, 10, 0, 0, C99Flags(NO_FLAGS, 'd')) == "0"
  {
    assert ToDigits(0, 10) == [0];
    assert Numeral(0, 10, false) == "0";
    assert Repeat('0', -1) == "";
  }
}
