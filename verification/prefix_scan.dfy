/** strtoul on numerals as C writes them: with a prefix, and in base 0. */
module PrefixScan {
  import opened Words
  import opened Digits
  import Strtoul
  import PrintScan

  /** n spaces. */
  function Blank(n: nat): (s: string)
    ensures |s| == n && forall i :: 0 <= i < n ==> s[i] == ' '
  {
    seq(n, _ => ' ')
  }

  predicate IsSign(s: string) {
    s == "" || s == "+" || s == "-"
  }

  /** What a numeral after a sign is read as. */
  function SignedWord(s: string, v: U32): U32 {
    if s == "-" then Wrap32(U32_MODULUS - v) else v
  }

  /** Where white space and a sign end. */
  lemma AfterSign(n: nat, s: string, rest: string)
    requires IsSign(s) && rest != "" && DigitOf(rest[0]) < 36
    ensures var text := Blank(n) + s + rest;
            && Strtoul.SpaceEnd(text, 0) == n
            && (Strtoul.SubjectOf(text, 0).negative <==> s == "-")
            && n + |s| < |text| && text[n + |s|..] == rest
            && (s == "" ==> text[n] == rest[0]) && (s != "" ==> text[n] == s[0])
  {
    var text := Blank(n) + s + rest;
    assert text[n] == if s == "" then rest[0] else s[0];
    PrintScan.SpaceEndAt(text, 0, n);
  }

  /** The rest starts with a prefix that the base admits. */
  predicate HasPrefix(rest: string, base: nat) {
    (base == 0 || base == 16) && |rest| > 1 && rest[0] == '0' && (rest[1] == 'x' || rest[1] == 'X')
  }

  lemma SubjectAfter(n: nat, s: string, rest: string, base: nat)
    requires IsSign(s) && rest != "" && DigitOf(rest[0]) < 36 && (base == 0 || 2 <= base <= 36)
    ensures var text := Blank(n) + s + rest;
            && n + |s| <= |text| && text[n + |s|..] == rest
            && Strtoul.SubjectOf(text, base) ==
               if HasPrefix(rest, base) then Strtoul.Subject(n + |s| + 2, 16, s == "-")
               else Strtoul.Subject(n + |s|, if base != 0 then base else if rest[0] == '0' then 8 else 10, s == "-")
  {
    var text := Blank(n) + s + rest;
    var q := n + |s|;
    AfterSign(n, s, rest);
    assert text[q] == text[q..][0] && (|rest| > 1 ==> text[q + 1] == text[q..][1]);
    assert |text| == q + |rest|;
    hide DigitOf, Strtoul.SpaceEnd, Blank;
  }

  /** A subject that runs to the end of the text. */
  lemma ReadsTo(text: string, base: nat, subject: Strtoul.Subject, digits: string, s: string, v: nat)
    requires (base == 0 || 2 <= base <= 36) && Strtoul.SubjectOf(text, base) == subject
    requires subject.start <= |text| && text[subject.start..] == digits && subject.negative == (s == "-")
    requires forall i :: 0 <= i < |digits| ==> DigitOf(digits[i]) < subject.base
    requires Value(DigitsOf(digits), subject.base) == v
    ensures Strtoul.StrtoulValue(text, base) == if v < U32_MODULUS then SignedWord(s, v) else 0xffff_ffff
  {
    var start := subject.start;
    hide Strtoul.SubjectOf, DigitOf, Value, DigitsOf;
    assert forall k :: start <= k < |text| ==> text[k] == digits[k - start];
    PrintScan.RunEndAt(text, start, |text|, subject.base);
    assert text[start..|text|] == digits;
  }

  /** 0x and 0X, with base 16 and with base 0. */
  lemma HexPrefix(n: nat, s: string, x: char, v: U32, upper: bool, base: nat)
    requires IsSign(s) && (x == 'x' || x == 'X') && (base == 16 || base == 0)
    ensures Strtoul.StrtoulValue(Blank(n) + s + (['0', x] + Numeral(v, 16, upper)), base) == SignedWord(s, v)
  {
    hide Strtoul.SubjectOf, Strtoul.StrtoulValue, Numeral, Value, Blank, SignedWord;
    var d := Numeral(v, 16, upper);
    var rest := ['0', x] + d;
    var text := Blank(n) + s + rest;
    SubjectAfter(n, s, rest, base);
    assert text[n + |s| + 2..] == text[n + |s|..][2..] == d;
    NumeralReads(v, 16, upper);
    ReadsTo(text, base, Strtoul.Subject(n + |s| + 2, 16, s == "-"), d, s, v);
  }

  /** Base 0: a leading 0 means octal. */
  lemma OctalPrefix(n: nat, s: string, v: U32)
    requires IsSign(s)
    ensures Strtoul.StrtoulValue(Blank(n) + s + ("0" + Numeral(v, 8, false)), 0) == SignedWord(s, v)
  {
    hide Strtoul.SubjectOf, Strtoul.StrtoulValue, Numeral, Value, Blank, SignedWord;
    var d := Numeral(v, 8, false);
    var rest := "0" + d;
    OctalRest(d);
    SubjectAfter(n, s, rest, 0);
    LeadingZero(d, 8);
    NumeralReads(v, 8, false);
    ReadsTo(Blank(n) + s + rest, 0, Strtoul.Subject(n + |s|, 8, s == "-"), rest, s, v);
  }

  lemma OctalRest(d: string)
    requires d != "" && forall i :: 0 <= i < |d| ==> DigitOf(d[i]) < 8
    ensures !HasPrefix("0" + d, 0) && forall i :: 0 <= i < |d| + 1 ==> DigitOf(("0" + d)[i]) < 8
  {
    assert ("0" + d)[1] == d[0];
  }

  /** Base 0: without a leading 0, decimal. */
  lemma DecimalDefault(n: nat, s: string, v: U32)
    requires IsSign(s) && v > 0
    ensures Strtoul.StrtoulValue(Blank(n) + s + Numeral(v, 10, false), 0) == SignedWord(s, v)
  {
    var d := Numeral(v, 10, false);
    assert DigitOf(d[0]) < 10 && d[0] != '0' by {
      assert ToDigits(v, 10)[0] != 0;
      assert DigitOf(d[0]) != 0;
    }
    hide Strtoul.SubjectOf, Strtoul.StrtoulValue, Numeral, Value, Blank, SignedWord;
    SubjectAfter(n, s, d, 0);
    NumeralReads(v, 10, false);
    ReadsTo(Blank(n) + s + d, 0, Strtoul.Subject(n + |s|, 10, s == "-"), d, s, v);
  }

  /** A number of more than 32 bits, in any base and with any sign: the largest
      word. */
  lemma Saturates(n: nat, s: string, v: nat, base: nat)
    requires IsSign(s) && v >= U32_MODULUS && 2 <= base <= 36
    ensures Strtoul.StrtoulValue(Blank(n) + s + Numeral(v, base, false), base) == 0xffff_ffff
  {
    var d := Numeral(v, base, false);
    assert DigitOf(d[0]) < base && d[0] != '0' by {
      assert ToDigits(v, base)[0] != 0;
      assert DigitOf(d[0]) != 0;
    }
    hide Strtoul.SubjectOf, Strtoul.StrtoulValue, Numeral, Value, Blank, SignedWord;
    SubjectAfter(n, s, d, base);
    NumeralReads(v, base, false);
    ReadsTo(Blank(n) + s + d, base, Strtoul.Subject(n + |s|, base, s == "-"), d, s, v);
  }

  lemma LeadingZero(d: string, base: nat)
    ensures Value(DigitsOf("0" + d), base) == Value(DigitsOf(d), base)
  {
    assert DigitsOf("0" + d) == Zeros(1) + DigitsOf(d);
    ValueOfPadded(1, DigitsOf(d), base);
  }
}
