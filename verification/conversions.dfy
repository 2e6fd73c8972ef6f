/** What a format prints, directive by directive. */
module Conversions {
  import opened Words
  import opened Options
  import opened Bits
  import opened Digits
  import opened Format
  import opened FormatC99
  import opened Directives
  import PrintScan
  import HashPrefix

  // ---- the format as a whole

  /** What the format from i on prints, if all its directives are complete. */
  ghost function Output(fmt: string, i: nat, va: Args, arg: nat): Option<string>
    requires i <= |fmt|
  {
    if Complete(fmt, i, va, arg) then Some(Rendered(fmt, i, va, arg)) else None
  }

  function Prepend(s: string, o: Option<string>): Option<string> {
    match o
    case None => None
    case Some(t) => Some(s + t)
  }

  lemma OutputStep(fmt: string, i: nat, va: Args, arg: nat, p: Piece)
    requires i < |fmt| && PieceAt(fmt, i, va, arg) == p && p.next <= |fmt|
    ensures Output(fmt, i, va, arg) == Prepend(p.text, Output(fmt, p.next, va, p.arg))
  {
    hide PieceAt;
  }

  /** Characters other than the percent sign are printed as they are. */
  lemma {:induction false} LiteralRun(fmt: string, i: nat, n: nat, va: Args, arg: nat)
    requires i + n <= |fmt| && forall k :: i <= k < i + n ==> fmt[k] != '%'
    ensures Output(fmt, i, va, arg) == Prepend(fmt[i..i + n], Output(fmt, i + n, va, arg))
    decreases n
  {
    hide Output;
    if n == 0 {
      assert fmt[i..i] == "";
      PrependNothing(Output(fmt, i, va, arg));
    } else {
      Literal(fmt, i, va, arg);
      LiteralRun(fmt, i + 1, n - 1, va, arg);
      assert fmt[i..i + n] == [fmt[i]] + fmt[i + 1..i + n];
      PrependTwice([fmt[i]], fmt[i + 1..i + n], Output(fmt, i + n, va, arg));
    }
  }

  lemma Literal(fmt: string, i: nat, va: Args, arg: nat)
    requires i < |fmt| && fmt[i] != '%'
    ensures Output(fmt, i, va, arg) == Prepend([fmt[i]], Output(fmt, i + 1, va, arg))
  {
    hide Output;
    OutputStep(fmt, i, va, arg, Piece([fmt[i]], i + 1, arg));
  }

  lemma PrependNothing(o: Option<string>)
    ensures Prepend("", o) == o
  {
    assert o.Some? ==> "" + o.value == o.value;
  }

  lemma PrependTwice(s: string, t: string, o: Option<string>)
    ensures Prepend(s, Prepend(t, o)) == Prepend(s + t, o)
  {
    assert o.Some? ==> s + (t + o.value) == (s + t) + o.value;
  }

  /** The arguments that a conversion takes, besides those for stars. */
  function Takes(sp: Spelling): nat {
    if C99Integer(sp.conv) then (if sp.length == LL || sp.length == J then 0 else 1)
    else if sp.conv == 'c' || sp.conv == 's' || sp.conv == 'p' then 1 else 0
  }

  /** The directive is in the format at i. */
  ghost predicate Has(fmt: string, i: nat, sp: Spelling) {
    Proper(sp) && i < |fmt| && fmt[i] == '%' && At(fmt, i + 1, Spell(sp))
  }

  function Next(i: nat, sp: Spelling): nat {
    i + 1 + |Spell(sp)|
  }

  /** What the directive at i means. */
  function Read(i: nat, sp: Spelling, va: Args, arg: nat): Directive {
    Meant(sp, va, arg, i + |Spell(sp)|)
  }

  lemma TakesIs(d: Directive, sp: Spelling, va: Args)
    requires d.flags.longLong <==> sp.length == LL || sp.length == J
    ensures ConversionText(d, sp.conv, va).1 == Takes(sp)
  {
    hide IntegerText, NtoaLongText, Padded;
    TablesAgree(sp.conv);
  }

  lemma PieceIs(fmt: string, i: nat, sp: Spelling, va: Args, arg: nat)
    requires Has(fmt, i, sp)
    ensures PieceAt(fmt, i, va, arg)
         == Piece(ConversionText(Read(i, sp, va, arg), sp.conv, va).0, Next(i, sp), arg + Stars(sp) + Takes(sp))
  {
    hide ParseDirective, ConversionText, Spell, Takes, CharAt, At, Proper, AmountIs;
    DirectiveRead(fmt, i + 1, sp, va, arg);
    TakesIs(Read(i, sp, va, arg), sp, va);
  }

  /** A directive prints its text, and what follows starts behind it, with the
      argument behind those it takes. */
  lemma StepPrints(fmt: string, i: nat, sp: Spelling, va: Args, arg: nat)
    requires Has(fmt, i, sp)
    ensures Next(i, sp) <= |fmt|
    ensures Output(fmt, i, va, arg)
         == Prepend(ConversionText(Read(i, sp, va, arg), sp.conv, va).0,
                    Output(fmt, Next(i, sp), va, arg + Stars(sp) + Takes(sp)))
  {
    hide PieceAt, ConversionText, Meant, Takes, Stars, Proper, Spell, Output;
    PieceIs(fmt, i, sp, va, arg);
    OutputStep(fmt, i, va, arg, PieceAt(fmt, i, va, arg));
  }

  /** A format that is one directive. */
  lemma Alone(fmt: string, sp: Spelling, va: Args)
    requires Proper(sp) && fmt == "%" + Spell(sp)
    ensures Has(fmt, 0, sp)
    ensures Output(fmt, 0, va, 0) == Some(ConversionText(Read(0, sp, va, 0), sp.conv, va).0)
  {
    hide Proper, Spell, ConversionText, Meant;
    assert At(fmt, 1, Spell(sp));
    StepPrints(fmt, 0, sp, va, 0);
    var text := ConversionText(Read(0, sp, va, 0), sp.conv, va).0;
    AtEnd(fmt, va, Stars(sp) + Takes(sp));
    assert text + "" == text;
  }

  // ---- integers

  /** 2 to the bits of the argument that a length names. */
  function Modulus(n: Length): nat {
    match n
    case HH => 0x100
    case H => 0x1_0000
    case _ => U32_MODULUS
  }

  /** v is the argument, signed or not, cut to the size that the length names. */
  ghost predicate IsArgument(v: int, word: U32, sp: Spelling) {
    var m: int := Modulus(sp.length);
    (exists k: int :: v == word - k * m)
    && if sp.conv == 'd' || sp.conv == 'i' then -m <= 2 * v < m else 0 <= v < m
  }

  lemma Congruent(word: nat, m: nat, v: int)
    requires m > 0 && (v == word % m || v == word % m - m)
    ensures exists k: int :: v == word - k * m
  {
    var k: int := word / m + if v == word % m then 0 else 1;
    Euclid(word, m);
    Distribute(word / m, 1, m);
    assert v == word - k * m;
  }

  lemma ArgumentIs(word: U32, sp: Spelling, f: Flags)
    requires f.char8 == (sp.length == HH) && f.short == (sp.length == H || sp.length == HH)
    requires f.long == (sp.length == L || sp.length == LL || sp.length == Z)
    ensures IsArgument(C99Value(word, sp.conv, f), word, sp)
  {
    PowersOfTwo();
    hide Pow2;
    assert Modulus(sp.length) == Pow2(C99Bits(f));
    Congruent(word, Modulus(sp.length), C99Value(word, sp.conv, f));
  }

  /** The sign that a number gets. */
  function SignOf(v: int, sp: Spelling): string {
    if v < 0 then "-"
    else if sp.conv != 'd' && sp.conv != 'i' then ""
    else if '+' in sp.flags then "+"
    else if ' ' in sp.flags then " " else ""
  }

  /** d is the number n in the base, without leading zeros, and with letters of the
      one case. */
  ghost predicate IsNumeral(d: string, n: nat, base: nat, upper: bool) {
    && d != "" && Value(DigitsOf(d), base) == n && (d[0] == '0' ==> d == "0")
    && forall i :: 0 <= i < |d| ==> DigitOf(d[i]) < base && InCase(d[i], upper)
  }

  /** Spaces, a sign, zeros, digits and spaces, as wide as asked or as needed, and
      filled as the flags say. */
  ghost predicate Fills(text: string, width: nat, before: nat, sign: string, zeros: nat, d: string, after: nat,
                        flags: Flags)
  {
    && text == Repeat(' ', before) + sign + Repeat('0', zeros) + d + Repeat(' ', after)
    && |text| == Max(width, |sign| + |d|)
    && PrintScan.Sides(before, zeros, after, flags)
  }

  lemma FlagsMeant(i: nat, sp: Spelling, va: Args, arg: nat)
    ensures var m := Read(i, sp, va, arg);
            && m.arg == arg + Stars(sp) && !m.flags.upper && (sp.precision.None? ==> m.precision == 0)
            && m.flags.precision == sp.precision.Some? && m.flags.hash == ('#' in sp.flags)
            && m.flags.longLong == (sp.length == LL || sp.length == J)
            && m.flags.plus == ('+' in sp.flags) && m.flags.space == (' ' in sp.flags)
            && m.flags.char8 == (sp.length == HH) && m.flags.short == (sp.length == H || sp.length == HH)
            && m.flags.long == (sp.length == L || sp.length == LL || sp.length == Z)
  {
    hide AmountIs;
  }

  lemma SignMeant(v: int, sp: Spelling, flags: Flags)
    requires C99Integer(sp.conv) && (v < 0 ==> C99Signed(sp.conv))
    requires flags.plus == ('+' in sp.flags) && flags.space == (' ' in sp.flags)
    ensures Sign(v < 0, C99Flags(flags, sp.conv)) == SignOf(v, sp)
    ensures C99Flags(flags, sp.conv).char8 == flags.char8 && C99Flags(flags, sp.conv).short == flags.short
    ensures C99Flags(flags, sp.conv).long == flags.long
  {
    hide C99Integer, C99Base;
  }

  lemma IntegerField(word: U32, conv: char, width: nat, flags: Flags)
    returns (before: nat, zeros: nat, d: string, after: nat)
    requires C99Integer(conv) && !flags.longLong && !flags.precision && !flags.upper
    requires flags.hash ==> C99Base(conv) == 10
    requires flags.zeroPad && !flags.left ==> width <= NTOA_BUFFER_SIZE
    ensures var f := C99Flags(flags, conv);
            var v := C99Value(word, conv, f);
            && IsNumeral(d, Magnitude(v), C99Base(conv), conv == 'X')
            && Fills(IntegerText(word, conv, 0, width, flags), width, before, Sign(v < 0, f), zeros, d, after, flags)
  {
    hide C99Value, IntegerText, NtoaLongText, C99Base, C99Integer, Numeral, Value, DigitsOf, DigitOf, Parsed, Sign;
    hide InCase, Repeat;
    var f := C99Flags(flags, conv);
    var v := C99Value(word, conv, f);
    d := Numeral(Magnitude(v), C99Base(conv), f.upper);
    NumeralReads(Magnitude(v), C99Base(conv), f.upper);
    IntegerTextIs(word, conv, 0, width, flags);
    ReadyFor(v, conv, flags);
    before, zeros, after := PrintScan.FieldParts(Magnitude(v), v < 0, C99Base(conv), width, f);
  }

  lemma ReadyFor(v: int, conv: char, flags: Flags)
    requires C99Integer(conv) && (flags.hash ==> C99Base(conv) == 10) && !flags.precision
    requires v < 0 ==> C99Signed(conv)
    ensures Parsed(v < 0, C99Base(conv), 0, C99Flags(flags, conv))
  {
    IntegerIsParsed(v < 0, conv, 0, flags);
    FlagsAgree(flags, conv);
  }

  /** Integers: whatever the flags, the width and the length, the text is a field
      with the number that the argument stands for, in the base of the conversion. */
  lemma IntegerPrints(i: nat, sp: Spelling, va: Args, arg: nat)
    returns (v: int, before: nat, zeros: nat, d: string, after: nat)
    requires C99Integer(sp.conv) && sp.precision.None? && sp.length != LL && sp.length != J
    requires '#' in sp.flags ==> C99Base(sp.conv) == 10
    requires var m := Read(i, sp, va, arg); m.flags.zeroPad && !m.flags.left ==> m.width <= NTOA_BUFFER_SIZE
    ensures IsArgument(v, va(arg + Stars(sp)).word, sp) && -U32_MODULUS < v < U32_MODULUS
    ensures IsNumeral(d, if v < 0 then -v else v, C99Base(sp.conv), sp.conv == 'X')
    ensures var m := Read(i, sp, va, arg);
            Fills(ConversionText(m, sp.conv, va).0, m.width, before, SignOf(v, sp), zeros, d, after, m.flags)
  {
    hide Meant, C99Flags, C99Value, IntegerText, C99Base, C99Integer, IsInteger, Sign, SignOf, IsArgument, Fills, IsNumeral;
    FlagsMeant(i, sp, va, arg);
    TablesAgree(sp.conv);
    var m := Read(i, sp, va, arg);
    var f := C99Flags(m.flags, sp.conv);
    v := C99Value(va(m.arg).word, sp.conv, f);
    SignMeant(v, sp, m.flags);
    ArgumentIs(va(m.arg).word, sp, f);
    before, zeros, d, after := IntegerField(va(m.arg).word, sp.conv, m.width, m.flags);
  }

  /** Integers with #: a number other than 0 gets its prefix exactly when the field
      and the digit buffer have room for it. */
  lemma HashPrints(i: nat, sp: Spelling, va: Args, arg: nat)
    requires C99Integer(sp.conv) && C99Base(sp.conv) != 10 && '#' in sp.flags
    requires sp.precision.None? && sp.length != LL && sp.length != J
    ensures var m := Read(i, sp, va, arg);
            var f := C99Flags(m.flags, sp.conv);
            var v := C99Value(va(arg + Stars(sp)).word, sp.conv, f);
            var base, upper := C99Base(sp.conv), sp.conv == 'X';
            && IsArgument(v, va(arg + Stars(sp)).word, sp) && v >= 0
            && (v > 0 ==>
                  (ConversionText(m, sp.conv, va).0
                   == C99Field(Numeral(v, base, upper), HashPrefix.Prefix(base, upper), 0, m.width, f)
                   <==> HashPrefix.HashConforms(|Numeral(v, base, upper)|, base, m.width, f)))
  {
    hide Meant, C99Value, IntegerText, NtoaLongText, C99Field, Numeral, IsInteger, IsArgument, HashPrefix.HashConforms;
    hide HashPrefix.Prefix;
    FlagsMeant(i, sp, va, arg);
    TablesAgree(sp.conv);
    var m := Read(i, sp, va, arg);
    var word := va(m.arg).word;
    var f := C99Flags(m.flags, sp.conv);
    ArgumentIs(word, sp, f);
    IntegerTextIs(word, sp.conv, 0, m.width, m.flags);
    var v := C99Value(word, sp.conv, f);
    if v > 0 {
      HashPrefix.HashExactly(v, C99Base(sp.conv), m.width, f);
    }
  }

  /** Pointers: at least eight capital hexadecimal digits, whatever the width. */
  lemma PointerPrints(i: nat, sp: Spelling, va: Args, arg: nat)
    returns (before: nat, zeros: nat, d: string, after: nat)
    requires sp.conv == 'p' && sp.precision.None? && '#' !in sp.flags
    ensures IsNumeral(d, va(arg + Stars(sp)).word, 16, true)
    ensures var m := Read(i, sp, va, arg);
            var sign := if '+' in sp.flags then "+" else if ' ' in sp.flags then " " else "";
            Fills(ConversionText(m, 'p', va).0, 8, before, sign, zeros, d, after, m.flags.(zeroPad := true))
  {
    hide Meant, NtoaLongText, Numeral, Value, DigitsOf, DigitOf, InCase, Repeat;
    FlagsMeant(i, sp, va, arg);
    var m := Read(i, sp, va, arg);
    var f := m.flags.(zeroPad := true, upper := true);
    var word := va(m.arg).word;
    d := Numeral(word, 16, true);
    NumeralReads(word, 16, true);
    before, zeros, after := PrintScan.FieldParts(word, false, 16, 8, f);
  }

  // ---- strings and characters

  /** The text in a field of spaces. */
  ghost predicate InSpaces(text: string, shown: string, width: nat, left: bool) {
    && |text| == Max(width, |shown|)
    && (if left then text[..|shown|] == shown else text[|text| - |shown|..] == shown)
    && forall k :: (if left then |shown| <= k < |text| else 0 <= k < |text| - |shown|) ==> text[k] == ' '
  }

  lemma PaddedIs(s: string, width: nat, flags: Flags)
    ensures InSpaces(Padded(s, width, flags), s, width, flags.left)
  {
  }

  /** Strings: as many characters as the precision admits, in a field. */
  lemma StringPrints(i: nat, sp: Spelling, va: Args, arg: nat)
    requires sp.conv == 's'
    ensures var m, str := Read(i, sp, va, arg), va(arg + Stars(sp)).str;
            var n := if sp.precision.None? then |str| else Min(|str|, m.precision);
            InSpaces(ConversionText(m, 's', va).0, str[..n], m.width, m.flags.left)
  {
    hide Meant, Padded, InSpaces, NtoaLongText, IntegerText;
    FlagsMeant(i, sp, va, arg);
    var m, str := Read(i, sp, va, arg), va(arg + Stars(sp)).str;
    var n := if sp.precision.None? then |str| else Min(|str|, m.precision);
    assert str[..|str|] == str;
    PaddedIs(str[..n], m.width, m.flags);
  }

  /** Characters: the low byte of the argument, in a field. */
  lemma CharPrints(i: nat, sp: Spelling, va: Args, arg: nat)
    requires sp.conv == 'c'
    ensures var m := Read(i, sp, va, arg);
            var c := (va(arg + Stars(sp)).word % 0x100) as char;
            InSpaces(ConversionText(m, 'c', va).0, [c], m.width, m.flags.left)
  {
    hide Meant, Padded, InSpaces, NtoaLongText, IntegerText;
    FlagsMeant(i, sp, va, arg);
    var m := Read(i, sp, va, arg);
    PaddedIs([(va(m.arg).word % 0x100) as char], m.width, m.flags);
  }

  /** A percent sign and any other character print themselves, and a long long
      integer nothing. */
  lemma OthersPrint(i: nat, sp: Spelling, va: Args, arg: nat)
    requires if C99Integer(sp.conv) then sp.length == LL || sp.length == J
             else sp.conv != 'c' && sp.conv != 's' && sp.conv != 'p'
    ensures ConversionText(Read(i, sp, va, arg), sp.conv, va).0 == if C99Integer(sp.conv) then "" else [sp.conv]
  {
    hide Meant, Padded, NtoaLongText, IntegerFlags, C99Flags, C99Integer, C99Base;
    FlagsMeant(i, sp, va, arg);
    TablesAgree(sp.conv);
    if C99Integer(sp.conv) {
      FlagsAgree(Read(i, sp, va, arg).flags, sp.conv);
      LongLongKept(Read(i, sp, va, arg).flags, sp.conv);
    }
  }

  lemma LongLongKept(flags: Flags, conv: char)
    requires C99Integer(conv)
    ensures C99Flags(flags, conv).longLong == flags.longLong
  {
  }

  // ---- what programs print

  /** A conversion on its own. */
  function Bare(conv: char): Spelling {
    Spelling("", Nothing, None, Plain, conv)
  }

  lemma BareAlone(conv: char, va: Args)
    requires IsConversion(conv)
    ensures Output("%" + [conv], 0, va, 0) == Some(ConversionText(Read(0, Bare(conv), va, 0), conv, va).0)
    ensures var m := Read(0, Bare(conv), va, 0);
            m.width == 0 && !m.flags.left && !m.flags.zeroPad && Stars(Bare(conv)) == 0
  {
    hide Output, ConversionText;
    assert Spell(Bare(conv)) == [conv];
    Alone("%" + [conv], Bare(conv), va);
  }

  /** A bare integer conversion: a sign and the digits. */
  lemma BareInteger(conv: char, va: Args) returns (v: int, d: string)
    requires C99Integer(conv)
    ensures Output("%" + [conv], 0, va, 0) == Some((if v < 0 then "-" else "") + d)
    ensures v == if conv == 'd' || conv == 'i' then ToInt32(va(0).word) else va(0).word
    ensures IsNumeral(d, if v < 0 then -v else v, C99Base(conv), conv == 'X')
  {
    hide Output, ConversionText, Meant, IsNumeral, C99Base, Repeat;
    BareAlone(conv, va);
    var before, zeros, after;
    v, before, zeros, d, after := IntegerPrints(0, Bare(conv), va, 0);
    SameWord(v, va(0).word);
    JustDigits(before, SignOf(v, Bare(conv)), zeros, d, after);
  }

  lemma SameWord(v: int, word: U32)
    requires exists k: int :: v == word - k * U32_MODULUS
    ensures 0 <= v < U32_MODULUS ==> v == word
    ensures -0x8000_0000 <= v < 0x8000_0000 ==> v == ToInt32(word)
  {
  }

  lemma JustDigits(before: nat, sign: string, zeros: nat, d: string, after: nat)
    requires |Repeat(' ', before) + sign + Repeat('0', zeros) + d + Repeat(' ', after)| == |sign| + |d|
    ensures Repeat(' ', before) + sign + Repeat('0', zeros) + d + Repeat(' ', after) == sign + d
  {
  }

  /** The unsigned conversions, with their base and case. */
  predicate Unsigned(conv: char, base: nat, upper: bool) {
    || (conv == 'x' && base == 16 && !upper) || (conv == 'X' && base == 16 && upper)
    || (conv == 'o' && base == 8 && !upper) || (conv == 'b' && base == 2 && !upper)
    || (conv == 'u' && base == 10 && !upper)
  }

  /** %x, %X, %o, %b and %u: the word in base 16, 16, 8, 2 and 10. */
  lemma BareUnsigned(conv: char, base: nat, upper: bool, va: Args)
    requires Unsigned(conv, base, upper)
    ensures var t := Output("%" + [conv], 0, va, 0);
            t.Some? && IsNumeral(t.value, va(0).word, base, upper)
  {
    hide Output, IsNumeral;
    assert C99Integer(conv);
    var v, d := BareInteger(conv, va);
    assert "" + d == d;
  }

  /** %d and %i: the int in base 10, a minus sign before it if it is negative. */
  lemma BareSigned(conv: char, va: Args)
    requires conv == 'd' || conv == 'i'
    ensures var t, v := Output("%" + [conv], 0, va, 0), ToInt32(va(0).word);
            && t.Some? && t.value != ""
            && if v < 0 then t.value[0] == '-' && IsNumeral(t.value[1..], -v, 10, false)
               else IsNumeral(t.value, v, 10, false)
  {
    hide Output, IsNumeral;
    assert C99Integer(conv);
    var v, d := BareInteger(conv, va);
    assert d != "" by {
      NotEmpty(d, if v < 0 then -v else v, 10, false);
    }
    assert "" + d == d && ("-" + d)[1..] == d;
  }

  lemma NotEmpty(d: string, n: nat, base: nat, upper: bool)
    requires IsNumeral(d, n, base, upper)
    ensures d != ""
  {
  }

  /** %s%s: one argument after the other. */
  lemma TwoStrings(fmt: string, va: Args)
    requires fmt == "%s%s"
    ensures Output(fmt, 0, va, 0) == Some(va(0).str + va(1).str)
  {
    hide Output, ConversionText, Meant;
    var sp := Bare('s');
    assert Spell(sp) == "s";
    assert Has(fmt, 0, sp) && Has(fmt, 2, sp);
    StepPrints(fmt, 0, sp, va, 0);
    StepPrints(fmt, 2, sp, va, 1);
    BareString(0, va, 0);
    BareString(2, va, 1);
    AtEnd(fmt, va, 2);
    assert va(1).str + "" == va(1).str;
  }

  lemma AtEnd(fmt: string, va: Args, arg: nat)
    ensures Output(fmt, |fmt|, va, arg) == Some("")
  {
  }

  lemma BareString(i: nat, va: Args, arg: nat)
    ensures ConversionText(Read(i, Bare('s'), va, arg), 's', va).0 == va(arg).str
  {
    hide ConversionText;
    StringPrints(i, Bare('s'), va, arg);
    var str := va(arg).str;
    assert str[..|str|] == str;
  }

  /** %08x, with which the registers are dumped: eight digits that spell the word. */
  lemma EightDigits(fmt: string, va: Args)
    requires fmt == "%08x"
    ensures var t := Output(fmt, 0, va, 0);
            && t.Some? && |t.value| == 8 && Value(DigitsOf(t.value), 16) == va(0).word
            && forall k :: 0 <= k < 8 ==> DigitOf(t.value[k]) < 16 && InCase(t.value[k], false)
  {
    hide Output, ConversionText, Value, DigitOf, DigitsOf;
    var sp := Spelling("0", Given("8"), None, Plain, 'x');
    assert Spell(sp) == "08x";
    Alone(fmt, sp, va);
    WidthEight(sp, va);
    hide Meant;
    var v, before, zeros, d, after := IntegerPrints(0, sp, va, 0);
    SameWord(v, va(0).word);
    AtMostEight(d, v);
    ZerosAndDigits(zeros, d, v);
    assert Repeat(' ', 0) + "" + Repeat('0', zeros) + d + Repeat(' ', 0) == Repeat('0', zeros) + d;
  }

  lemma WidthEight(sp: Spelling, va: Args)
    requires sp == Spelling("0", Given("8"), None, Plain, 'x')
    ensures var m := Read(0, sp, va, 0);
            m.width == 8 && m.flags.zeroPad && !m.flags.left && Stars(sp) == 0
  {
    hide Value, DigitsOf;
    ReadEight("8");
  }

  lemma ReadEight(s: string)
    requires s == "8"
    ensures Value(DigitsOf(s), 10) == 8
  {
    hide Value;
    assert DigitsOf(s) == [] + [8];
    ValueAppend([], 8, 10);
    EmptyValue(10);
  }

  lemma ZerosAndDigits(zeros: nat, d: string, n: nat)
    requires IsNumeral(d, n, 16, false)
    ensures var t := Repeat('0', zeros) + d;
            && Value(DigitsOf(t), 16) == n
            && forall k :: 0 <= k < |t| ==> DigitOf(t[k]) < 16 && InCase(t[k], false)
  {
    assert DigitsOf(Repeat('0', zeros) + d) == Zeros(zeros) + DigitsOf(d);
    ValueOfPadded(zeros, DigitsOf(d), 16);
  }

  lemma AtMostEight(d: string, n: U32)
    requires IsNumeral(d, n, 16, false)
    ensures |d| <= 8
  {
    if |d| > 8 {
      PowersOfTwo();
      hide Pow2, Value;
      assert DigitOf(d[0]) != 0;
      AtLeast(DigitsOf(d), 8);
    }
  }

  /** More than k digits, the first of them not 0: at least 16^k. */
  lemma {:induction false} AtLeast(ds: seq<nat>, k: nat)
    requires |ds| > k && ds[0] != 0
    ensures Value(ds, 16) >= Pow2(4 * k)
    decreases |ds|
  {
    if |ds| > k + 1 {
      AtLeast(ds[..|ds| - 1], k);
    } else if k > 0 {
      AtLeast(ds[..k], k - 1);
      FourMore(4 * (k - 1));
    }
  }

  lemma FourMore(k: nat)
    ensures Pow2(k + 4) == 16 * Pow2(k)
  {
    assert Pow2(k + 4) == 2 * Pow2(k + 3) && Pow2(k + 3) == 2 * Pow2(k + 2);
    assert Pow2(k + 2) == 2 * Pow2(k + 1);
  }
}
