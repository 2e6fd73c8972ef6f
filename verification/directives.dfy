/** Directives as a programmer writes them, and that the formatter reads in them
    what was written. */
module Directives {
  import opened Words
  import opened Options
  import opened Digits
  import opened Format

  /** A width or a precision: nothing, digits, or the next argument. */
  datatype Amount = Nothing | Given(digits: string) | Star

  datatype Length = Plain | L | LL | H | HH | J | Z

  /** %[flags][width][.precision][length]conversion, without the percent sign. */
  datatype Spelling = Spelling(
    flags: string, width: Amount, precision: Option<Amount>, length: Length, conv: char)

  function AmountText(a: Amount): string {
    match a
    case Nothing => ""
    case Given(digits) => digits
    case Star => "*"
  }

  function PrecisionText(p: Option<Amount>): string {
    match p
    case None => ""
    case Some(a) => "." + AmountText(a)
  }

  function LengthText(n: Length): string {
    match n
    case Plain => ""
    case L => "l"
    case LL => "ll"
    case H => "h"
    case HH => "hh"
    case J => "j"
    case Z => "z"
  }

  function Spell(sp: Spelling): string {
    sp.flags + AmountText(sp.width) + PrecisionText(sp.precision) + LengthText(sp.length) + [sp.conv]
  }

  predicate IsAmount(a: Amount) {
    a.Given? ==> a.digits != "" && forall i :: 0 <= i < |a.digits| ==> IsDigit(a.digits[i])
  }

  /** The parts are what they are to be: a width does not start with the flag 0,
      and a conversion is not taken for a part before it. */
  ghost predicate Proper(sp: Spelling) {
    && (forall i :: 0 <= i < |sp.flags| ==> IsFlag(sp.flags[i]))
    && IsAmount(sp.width) && (sp.width.Given? ==> sp.width.digits[0] != '0')
    && (sp.precision.Some? ==> IsAmount(sp.precision.value))
    && IsConversion(sp.conv)
  }

  predicate IsConversion(c: char) {
    !IsFlag(c) && !IsDigit(c) && c != '*' && c != '.' && c != 'l' && c != 'h' && c != 'j' && c != 'z' && c != '\0'
  }

  /** The text is in the format at i. */
  ghost predicate At(fmt: string, i: nat, text: string) {
    i + |text| <= |fmt| && fmt[i..i + |text|] == text
  }

  lemma AtParts(fmt: string, i: nat, a: string, b: string)
    requires At(fmt, i, a + b)
    ensures At(fmt, i, a) && At(fmt, i + |a|, b)
  {
    assert fmt[i..i + |a|] == (a + b)[..|a|] == a;
    assert fmt[i + |a|..i + |a| + |b|] == (a + b)[|a|..] == b;
  }

  lemma AtChar(fmt: string, i: nat, text: string, k: nat)
    requires At(fmt, i, text) && k < |text|
    ensures CharAt(fmt, i + k) == text[k]
  {
    assert fmt[i + k] == fmt[i..i + |text|][k];
  }

  // ---- flags

  /** The flags with those that the characters name. */
  function WithFlags(f: Flags, s: string): Flags {
    f.(zeroPad := f.zeroPad || '0' in s, left := f.left || '-' in s, plus := f.plus || '+' in s,
       space := f.space || ' ' in s, hash := f.hash || '#' in s)
  }

  lemma {:induction false} FlagsRead(fmt: string, i: nat, s: string, f: Flags)
    requires At(fmt, i, s) && !IsFlag(CharAt(fmt, i + |s|))
    requires forall k :: 0 <= k < |s| ==> IsFlag(s[k])
    ensures ParseFlags(fmt, i, f) == (WithFlags(f, s), i + |s|)
    decreases s
  {
    if s == "" {
      assert WithFlags(f, s) == f;
    } else {
      AtChar(fmt, i, s, 0);
      assert [s[0]] + s[1..] == s;
      AtParts(fmt, i, [s[0]], s[1..]);
      OneFlag(fmt, i, s[0], f);
      OneMore(f, s);
      hide WithFlags, ParseFlags, At;
      FlagsRead(fmt, i + 1, s[1..], WithFlags(f, [s[0]]));
    }
  }

  lemma OneMore(f: Flags, s: string)
    requires s != ""
    ensures WithFlags(WithFlags(f, [s[0]]), s[1..]) == WithFlags(f, s)
  {
    assert forall c :: c in s <==> c == s[0] || c in s[1..];
  }

  lemma OneFlag(fmt: string, i: nat, c: char, f: Flags)
    requires i < |fmt| && CharAt(fmt, i) == c && IsFlag(c)
    ensures ParseFlags(fmt, i, f) == ParseFlags(fmt, i + 1, WithFlags(f, [c]))
  {
    FlagNamed(f, c);
    hide WithFlags, WithFlag;
  }

  lemma FlagNamed(f: Flags, c: char)
    requires IsFlag(c)
    ensures WithFlags(f, [c]) == WithFlag(f, c)
  {
  }

  // ---- numbers

  /** Digits are read as the number they spell, modulo 2^32. */
  lemma {:induction false} NumberRead(fmt: string, i: nat, s: string, k: nat, n: U32)
    requires At(fmt, i, s) && !IsDigit(CharAt(fmt, i + |s|)) && k <= |s|
    requires forall j :: 0 <= j < |s| ==> IsDigit(s[j])
    requires n == Wrap32(Value(DigitsOf(s[..k]), 10))
    ensures ParseNumber(fmt, i + k, n) == (Wrap32(Value(DigitsOf(s), 10)), i + |s|)
    decreases |s| - k
  {
    if k == |s| {
      assert s[..k] == s;
      hide Value, DigitsOf, Wrap32;
    } else {
      AtChar(fmt, i, s, k);
      OneDigit(fmt, i + k, n);
      DigitAppended(s, k);
      WrapDigit(Value(DigitsOf(s[..k]), 10), DigitOf(s[k]));
      hide Value, DigitsOf, DigitOf, ParseNumber, Wrap32;
      NumberRead(fmt, i, s, k + 1, Wrap32(n * 10 + DigitOf(s[k])));
    }
  }

  lemma OneDigit(fmt: string, i: nat, n: U32)
    requires i < |fmt| && IsDigit(fmt[i])
    ensures ParseNumber(fmt, i, n) == ParseNumber(fmt, i + 1, Wrap32(n * 10 + DigitOf(fmt[i])))
  {
  }

  lemma DigitAppended(s: string, k: nat)
    requires k < |s|
    ensures Value(DigitsOf(s[..k + 1]), 10) == Value(DigitsOf(s[..k]), 10) * 10 + DigitOf(s[k])
  {
    assert DigitsOf(s[..k + 1]) == DigitsOf(s[..k]) + [DigitOf(s[k])];
    ValueAppend(DigitsOf(s[..k]), DigitOf(s[k]), 10);
  }

  lemma WrapDigit(v: nat, d: nat)
    ensures Wrap32(Wrap32(v) * 10 + d) == Wrap32(v * 10 + d)
  {
    var q, r := v / U32_MODULUS, v % U32_MODULUS;
    assert v * 10 + d == (q * 10) * U32_MODULUS + (r * 10 + d);
    WrapMore(q * 10, r * 10 + d);
  }

  lemma WrapMore(k: nat, n: nat)
    ensures Wrap32(k * U32_MODULUS + n) == Wrap32(n)
  {
    DivShift(n, k, U32_MODULUS);
  }

  // ---- the parts of a directive

  /** How many arguments the width and the precision take. */
  function Stars(sp: Spelling): nat {
    (if sp.width == Star then 1 else 0) + (if sp.precision == Some(Star) then 1 else 0)
  }

  /** The amount, if digits or an argument give it. */
  function AmountIs(a: Amount, argument: U32): int {
    match a
    case Nothing => 0
    case Given(digits) => Value(DigitsOf(digits), 10) % U32_MODULUS
    case Star => ToInt32(argument)
  }

  /** What the directive means. A negative width is the - flag and a width, and a
      negative precision is 0. */
  function Meant(sp: Spelling, va: Args, arg: nat, next: nat): Directive {
    var w := AmountIs(sp.width, va(arg).word);
    var p := if sp.precision.None? then 0
             else AmountIs(sp.precision.value, va(if sp.width == Star then arg + 1 else arg).word);
    Directive(
      Flags(
        zeroPad := '0' in sp.flags,
        left := '-' in sp.flags || w < 0,
        plus := '+' in sp.flags,
        space := ' ' in sp.flags,
        hash := '#' in sp.flags,
        upper := false,
        char8 := sp.length == HH,
        short := sp.length == H || sp.length == HH,
        long := sp.length == L || sp.length == LL || sp.length == Z,
        longLong := sp.length == LL || sp.length == J,
        precision := sp.precision.Some?),
      if w < 0 then -w else w,
      Max(p, 0),
      next,
      arg + Stars(sp))
  }

  lemma WidthRead(fmt: string, d: Directive, a: Amount, va: Args)
    requires IsAmount(a) && At(fmt, d.next, AmountText(a))
    requires var c := CharAt(fmt, d.next + |AmountText(a)|); !IsDigit(c) && c != '*'
    ensures var w := AmountIs(a, va(d.arg).word);
            ParseWidth(fmt, d, va)
            == Directive(d.flags.(left := d.flags.left || w < 0),
                         if a.Nothing? then d.width else if w < 0 then -w else w, d.precision,
                         d.next + |AmountText(a)|, d.arg + if a.Star? then 1 else 0)
  {
    AmountRead(fmt, d.next, a);
    hide ParseNumber, Value, DigitsOf, At;
    assert d.flags.(left := d.flags.left) == d.flags;
  }

  lemma PrecisionRead(fmt: string, d: Directive, p: Option<Amount>, va: Args)
    requires (p.Some? ==> IsAmount(p.value)) && At(fmt, d.next, PrecisionText(p))
    requires var c := CharAt(fmt, d.next + |PrecisionText(p)|); !IsDigit(c) && c != '*' && c != '.'
    ensures var n := if p.None? then 0 else AmountIs(p.value, va(d.arg).word);
            ParsePrecision(fmt, d, va)
            == Directive(d.flags.(precision := d.flags.precision || p.Some?),
                         d.width, if p.None? || p.value.Nothing? then d.precision else Max(n, 0),
                         d.next + |PrecisionText(p)|, d.arg + if p == Some(Star) then 1 else 0)
  {
    if p.None? {
      assert d.flags.(precision := d.flags.precision) == d.flags;
    } else {
      PointRead(fmt, d, p.value, va);
      hide ParsePrecision;
    }
  }

  lemma PointRead(fmt: string, d: Directive, a: Amount, va: Args)
    requires IsAmount(a) && At(fmt, d.next, PrecisionText(Some(a)))
    requires var c := CharAt(fmt, d.next + |PrecisionText(Some(a))|); !IsDigit(c) && c != '*' && c != '.'
    ensures var n := AmountIs(a, va(d.arg).word);
            ParsePrecision(fmt, d, va)
            == Directive(d.flags.(precision := true), d.width, if a.Nothing? then d.precision else Max(n, 0),
                         d.next + 1 + |AmountText(a)|, d.arg + if a == Star then 1 else 0)
  {
    hide ParseNumber, Value, DigitsOf, At;
    AtParts(fmt, d.next, ".", AmountText(a));
    AtChar(fmt, d.next, ".", 0);
    AmountRead(fmt, d.next + 1, a);
  }

  lemma AmountRead(fmt: string, i: nat, a: Amount)
    requires IsAmount(a) && At(fmt, i, AmountText(a))
    requires !IsDigit(CharAt(fmt, i + |AmountText(a)|))
    ensures a.Given? ==> IsDigit(CharAt(fmt, i))
                         && ParseNumber(fmt, i, 0) == (Wrap32(Value(DigitsOf(a.digits), 10)), i + |a.digits|)
    ensures a.Star? ==> CharAt(fmt, i) == '*'
  {
    if a.Given? {
      AtChar(fmt, i, a.digits, 0);
      assert DigitsOf(a.digits[..0]) == [];
      NumberRead(fmt, i, a.digits, 0, 0);
    } else if a.Star? {
      AtChar(fmt, i, "*", 0);
    }
  }

  function WithLength(f: Flags, n: Length): Flags {
    f.(char8 := f.char8 || n == HH, short := f.short || n == H || n == HH,
       long := f.long || n == L || n == LL || n == Z, longLong := f.longLong || n == LL || n == J)
  }

  lemma LengthRead(fmt: string, d: Directive, n: Length, conv: char)
    requires At(fmt, d.next, LengthText(n) + [conv]) && IsConversion(conv)
    ensures ParseLength(fmt, d) == d.(flags := WithLength(d.flags, n), next := d.next + |LengthText(n)|)
    ensures CharAt(fmt, d.next + |LengthText(n)|) == conv
  {
    var text := LengthText(n) + [conv];
    assert forall k :: 0 <= k < |text| ==> CharAt(fmt, d.next + k) == text[k] by {
      forall k | 0 <= k < |text|
        ensures CharAt(fmt, d.next + k) == text[k]
      {
        AtChar(fmt, d.next, text, k);
      }
    }
    assert CharAt(fmt, d.next) == text[0];
    assert |text| > 1 ==> CharAt(fmt, d.next + 1) == text[1];
    hide At;
  }

  /** No part of a directive runs into the next one. */
  lemma PartsApart(sp: Spelling)
    requires Proper(sp)
    ensures var rest := LengthText(sp.length) + [sp.conv];
            var tail := PrecisionText(sp.precision) + rest;
            var all := AmountText(sp.width) + tail;
            && !IsFlag(all[0]) && !IsDigit(tail[0]) && tail[0] != '*'
            && !IsDigit(rest[0]) && rest[0] != '*' && rest[0] != '.'
            && Spell(sp) == sp.flags + all
  {
    hide LengthText;
    var rest := LengthText(sp.length) + [sp.conv];
    LengthApart(sp.length, sp.conv);
    var tail := PrecisionText(sp.precision) + rest;
    assert tail[0] == if sp.precision.Some? then '.' else rest[0];
    var all := AmountText(sp.width) + tail;
    assert all[0] == match sp.width case Nothing => tail[0] case Given(digits) => digits[0] case Star => '*';
    hide AmountText, PrecisionText;
    assert Spell(sp) == sp.flags + all;
  }

  lemma LengthApart(n: Length, conv: char)
    requires IsConversion(conv)
    ensures var c := (LengthText(n) + [conv])[0]; !IsFlag(c) && !IsDigit(c) && c != '*' && c != '.'
  {
  }

  /** Where the width, the precision and the rest of a directive at i start. */
  function WidthStart(i: nat, sp: Spelling): nat {
    i + |sp.flags|
  }

  function PrecisionStart(i: nat, sp: Spelling): nat {
    WidthStart(i, sp) + |AmountText(sp.width)|
  }

  function LengthStart(i: nat, sp: Spelling): nat {
    PrecisionStart(i, sp) + |PrecisionText(sp.precision)|
  }

  lemma PartsAt(fmt: string, i: nat, sp: Spelling)
    requires Proper(sp) && At(fmt, i, Spell(sp))
    ensures At(fmt, i, sp.flags) && !IsFlag(CharAt(fmt, WidthStart(i, sp)))
    ensures At(fmt, WidthStart(i, sp), AmountText(sp.width))
    ensures var c := CharAt(fmt, PrecisionStart(i, sp)); !IsDigit(c) && c != '*'
    ensures At(fmt, PrecisionStart(i, sp), PrecisionText(sp.precision))
    ensures var c := CharAt(fmt, LengthStart(i, sp)); !IsDigit(c) && c != '*' && c != '.'
    ensures At(fmt, LengthStart(i, sp), LengthText(sp.length) + [sp.conv])
    ensures LengthStart(i, sp) + |LengthText(sp.length)| == i + |Spell(sp)| - 1
  {
    hide At, CharAt, AmountText, PrecisionText, LengthText, Spell, Proper, IsDigit;
    PartsApart(sp);
    FourParts(fmt, i, sp.flags, AmountText(sp.width), PrecisionText(sp.precision), LengthText(sp.length) + [sp.conv]);
    SpellLength(sp);
  }

  lemma SpellLength(sp: Spelling)
    ensures |Spell(sp)| == |sp.flags| + |AmountText(sp.width)| + |PrecisionText(sp.precision)| + |LengthText(sp.length)| + 1
  {
    hide AmountText, PrecisionText, LengthText;
  }

  /** Four texts one behind the other, and the character behind each of the first
      three. */
  lemma FourParts(fmt: string, i: nat, a: string, b: string, c: string, d: string)
    requires At(fmt, i, a + (b + (c + d))) && d != ""
    ensures At(fmt, i, a) && At(fmt, i + |a|, b) && At(fmt, i + |a| + |b|, c) && At(fmt, i + |a| + |b| + |c|, d)
    ensures CharAt(fmt, i + |a|) == (b + (c + d))[0] && CharAt(fmt, i + |a| + |b|) == (c + d)[0]
    ensures CharAt(fmt, i + |a| + |b| + |c|) == d[0]
  {
    hide At, CharAt;
    AtParts(fmt, i, a, b + (c + d));
    AtParts(fmt, i + |a|, b, c + d);
    AtParts(fmt, i + |a| + |b|, c, d);
    AtChar(fmt, i + |a|, b + (c + d), 0);
    AtChar(fmt, i + |a| + |b|, c + d, 0);
    AtChar(fmt, i + |a| + |b| + |c|, d, 0);
  }

  /** From the precision on. */
  lemma TailRead(fmt: string, i: nat, sp: Spelling, d: Directive, va: Args)
    requires Proper(sp) && At(fmt, i, Spell(sp)) && d.next == PrecisionStart(i, sp)
    ensures var n := if sp.precision.None? then 0 else AmountIs(sp.precision.value, va(d.arg).word);
            ParseLength(fmt, ParsePrecision(fmt, d, va))
            == Directive(WithLength(d.flags.(precision := d.flags.precision || sp.precision.Some?), sp.length), d.width,
                         if sp.precision.None? || sp.precision.value.Nothing? then d.precision else Max(n, 0),
                         i + |Spell(sp)| - 1, d.arg + if sp.precision == Some(Star) then 1 else 0)
    ensures CharAt(fmt, i + |Spell(sp)| - 1) == sp.conv
  {
    hide ParsePrecision, ParseLength, At, CharAt, PrecisionText, LengthText, Spell, AmountIs, WithLength, IsDigit, IsAmount;
    PartsAt(fmt, i, sp);
    PrecisionRead(fmt, d, sp.precision, va);
    LengthRead(fmt, ParsePrecision(fmt, d, va), sp.length, sp.conv);
  }

  /** Up to the width. */
  lemma HeadRead(fmt: string, i: nat, sp: Spelling, va: Args, arg: nat)
    requires Proper(sp) && At(fmt, i, Spell(sp))
    ensures var f := ParseFlags(fmt, i, NO_FLAGS);
            var g := WithFlags(NO_FLAGS, sp.flags);
            var w := AmountIs(sp.width, va(arg).word);
            ParseWidth(fmt, Directive(f.0, 0, 0, f.1, arg), va)
            == Directive(g.(left := g.left || w < 0), if sp.width.Nothing? then 0 else if w < 0 then -w else w, 0,
                         PrecisionStart(i, sp), arg + if sp.width.Star? then 1 else 0)
  {
    hide ParseFlags, ParseWidth, At, CharAt, AmountText, Spell, AmountIs, WithFlags, IsFlag, IsDigit, IsAmount;
    PartsAt(fmt, i, sp);
    FlagsRead(fmt, i, sp.flags, NO_FLAGS);
    WidthRead(fmt, Directive(WithFlags(NO_FLAGS, sp.flags), 0, 0, WidthStart(i, sp), arg), sp.width, va);
  }

  /** What the code reads in a directive is what was written. */
  lemma DirectiveRead(fmt: string, i: nat, sp: Spelling, va: Args, arg: nat)
    requires Proper(sp) && At(fmt, i, Spell(sp))
    ensures ParseDirective(fmt, i, va, arg) == Meant(sp, va, arg, i + |Spell(sp)| - 1)
    ensures CharAt(fmt, i + |Spell(sp)| - 1) == sp.conv
  {
    assert i <= |fmt| && |Spell(sp)| >= 1;
    hide ParseFlags, ParseWidth, ParsePrecision, ParseLength, At, CharAt, Spell, AmountIs, WithFlags, WithLength, Meant;
    hide Proper, PrecisionStart;
    HeadRead(fmt, i, sp, va, arg);
    var f := ParseFlags(fmt, i, NO_FLAGS);
    var d := ParseWidth(fmt, Directive(f.0, 0, 0, f.1, arg), va);
    TailRead(fmt, i, sp, d, va);
    MeantIs(sp, va, arg, d.flags, d.flags.(precision := d.flags.precision || sp.precision.Some?), i + |Spell(sp)| - 1);
  }

  /** The meaning, put together part by part. */
  lemma MeantIs(sp: Spelling, va: Args, arg: nat, f: Flags, g: Flags, next: nat)
    requires var w := AmountIs(sp.width, va(arg).word);
             var h := WithFlags(NO_FLAGS, sp.flags);
             f == h.(left := h.left || w < 0)
    requires g == f.(precision := f.precision || sp.precision.Some?)
    ensures var w := AmountIs(sp.width, va(arg).word);
            var second := arg + if sp.width.Star? then 1 else 0;
            var n := if sp.precision.None? then 0 else AmountIs(sp.precision.value, va(second).word);
            Meant(sp, va, arg, next)
            == Directive(WithLength(g, sp.length),
                         if sp.width.Nothing? then 0 else if w < 0 then -w else w,
                         if sp.precision.None? || sp.precision.value.Nothing? then 0 else Max(n, 0),
                         next, second + if sp.precision == Some(Star) then 1 else 0)
  {
  }
}
