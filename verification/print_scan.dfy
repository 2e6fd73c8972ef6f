/** printf and strtoul are inverse on 32-bit values. */
module PrintScan {
  import opened Words
  import opened Digits
  import opened Format
  import opened FormatC99
  import Strtoul

  /** A conversion with no precision, in parts: the field is spaces, a sign,
      zeros, digits and spaces, and exactly as wide as asked or as needed. */
  lemma FieldParts(value: U32, negative: bool, base: nat, width: nat, flags: Flags)
    returns (before: nat, zeros: nat, after: nat)
    requires Parsed(negative, base, 0, flags) && !flags.precision
    requires flags.zeroPad && !flags.left ==> width <= NTOA_BUFFER_SIZE
    ensures var s, d := Sign(negative, flags), Numeral(value, base, flags.upper);
            var text := NtoaLongText(value, negative, base, 0, width, flags);
            && text == Repeat(' ', before) + s + Repeat('0', zeros) + d + Repeat(' ', after)
            && |text| == Max(width, |s| + |d|)
    ensures Sides(before, zeros, after, flags)
  {
    hide NtoaLongText, Numeral, C99Field, Sign, Repeat;
    C99Exactly(value, negative, base, 0, width, flags);
    var s, d := Sign(negative, flags), Numeral(value, base, flags.upper);
    before, zeros, after := C99Parts(d, s, width, flags);
  }

  /** What fills the field, and on which side. */
  ghost predicate Sides(before: nat, zeros: nat, after: nat, flags: Flags) {
    && (if flags.left then before == zeros == 0 else after == 0)
    && (if flags.zeroPad then before == 0 else zeros == 0)
  }

  lemma C99Parts(d: string, s: string, width: nat, flags: Flags) returns (before: nat, zeros: nat, after: nat)
    ensures C99Field(d, s, 0, width, flags)
         == Repeat(' ', before) + s + Repeat('0', zeros) + d + Repeat(' ', after)
    ensures |C99Field(d, s, 0, width, flags)| == Max(width, |s| + |d|)
    ensures Sides(before, zeros, after, flags)
  {
    var fill := Max(width - |s| - |d|, 0);
    assert Repeat('0', 0 - |d|) == "" && Repeat('0', 0) == "" && Repeat(' ', 0) == "";
    before := if flags.left || flags.zeroPad then 0 else fill;
    zeros := if flags.zeroPad && !flags.left then fill else 0;
    after := if flags.left then fill else 0;
  }

  lemma {:induction false} SpaceEndAt(s: string, i: nat, j: nat)
    requires i <= j < |s| && !Strtoul.IsSpace(s[j])
    requires forall k :: i <= k < j ==> Strtoul.IsSpace(s[k])
    ensures Strtoul.SpaceEnd(s, i) == j
    decreases j - i
  {
    if i < j {
      SpaceEndAt(s, i + 1, j);
    }
  }

  lemma {:induction false} RunEndAt(s: string, i: nat, j: nat, base: nat)
    requires i <= j <= |s| && (j < |s| ==> DigitOf(s[j]) >= base)
    requires forall k :: i <= k < j ==> DigitOf(s[k]) < base
    ensures Strtoul.RunEnd(s, i, base) == j
    decreases j - i
  {
    if i < j {
      RunEndAt(s, i + 1, j, base);
    }
  }

  /** A sign is taken as one, and no prefix is found, if a digit and no x follows. */
  lemma SubjectAt(text: string, p: nat, base: nat)
    requires Strtoul.SpaceEnd(text, 0) == p && 2 <= base <= 36 && p < |text|
    requires var q := p + if text[p] == '-' || text[p] == '+' then 1 else 0;
             q + 1 < |text| ==> text[q + 1] != 'x' && text[q + 1] != 'X'
    ensures Strtoul.SubjectOf(text, base)
         == Strtoul.Subject(p + if text[p] == '-' || text[p] == '+' then 1 else 0, base, text[p] == '-')
  {
  }

  /** The characters of a field, by position. */
  ghost predicate FieldAt(text: string, before: nat, s: string, digits: string, after: nat) {
    && |text| == before + |s| + |digits| + after
    && (forall k :: 0 <= k < before ==> text[k] == ' ')
    && (s != "" ==> text[before] == s[0])
    && text[before + |s|..before + |s| + |digits|] == digits
    && (forall k :: before + |s| + |digits| <= k < |text| ==> text[k] == ' ')
  }

  lemma FieldOf(before: nat, s: string, digits: string, after: nat)
    ensures FieldAt(Repeat(' ', before) + s + digits + Repeat(' ', after), before, s, digits, after)
  {
  }

  /** Reading a field: leading spaces and a sign are skipped, and the digits end
      at the first space. */
  lemma FieldSubject(text: string, before: nat, s: string, digits: string, after: nat, base: nat)
    requires FieldAt(text, before, s, digits, after)
    requires s == "" || s == "+" || s == "-" || s == " "
    requires digits != "" && forall k :: 0 <= k < |digits| ==> DigitOf(digits[k]) < base
    requires 2 <= base <= 33
    ensures Strtoul.SubjectOf(text, base) == Strtoul.Subject(before + |s|, base, s == "-")
    ensures Strtoul.RunEnd(text, before + |s|, base) == before + |s| + |digits|
  {
    hide Strtoul.SubjectOf, Strtoul.SpaceEnd, Strtoul.RunEnd;
    var start, end := before + |s|, before + |s| + |digits|;
    assert forall k :: start <= k < end ==> text[k] == digits[k - start];
    var p := before + if s == " " then 1 else 0;
    SpaceEndAt(text, 0, p);
    RunEndAt(text, start, end, base);
    SubjectAt(text, p, base);
  }

  /** Zeros in front of a numeral count for nothing. */
  lemma PaddedNumeral(zeros: nat, value: U32, base: nat, upper: bool)
    requires 2 <= base <= 36
    ensures Value(DigitsOf(Repeat('0', zeros) + Numeral(value, base, upper)), base) == value
  {
    assert DigitsOf(Repeat('0', zeros) + Numeral(value, base, upper)) == Zeros(zeros) + ToDigits(value, base);
    ValueOfPadded(zeros, ToDigits(value, base), base);
    ValueOfToDigits(value, base);
  }

  lemma ScanField(before: nat, s: string, zeros: nat, value: U32, base: nat, upper: bool, after: nat)
    requires s == "" || s == "+" || s == "-" || s == " "
    requires 2 <= base <= 33
    ensures var text := Repeat(' ', before) + s + Repeat('0', zeros) + Numeral(value, base, upper) + Repeat(' ', after);
            Strtoul.StrtoulValue(text, base) == if s == "-" then Wrap32(U32_MODULUS - value) else value
  {
    hide Numeral, Value, Strtoul.StrtoulValue, Repeat, DigitOf, DigitsOf, FieldAt;
    var d := Numeral(value, base, upper);
    var digits := Repeat('0', zeros) + d;
    FieldOf(before, s, digits, after);
    Regroup(Repeat(' ', before), s, Repeat('0', zeros), d, Repeat(' ', after));
    PaddedNumeral(zeros, value, base, upper);
    DigitsInBase(zeros, d, base);
    ScanText(Repeat(' ', before) + s + digits + Repeat(' ', after), before, s, digits, after, base);
  }

  lemma ScanText(text: string, before: nat, s: string, digits: string, after: nat, base: nat)
    requires FieldAt(text, before, s, digits, after)
    requires s == "" || s == "+" || s == "-" || s == " "
    requires digits != "" && forall k :: 0 <= k < |digits| ==> DigitOf(digits[k]) < base
    requires 2 <= base <= 33 && Value(DigitsOf(digits), base) < U32_MODULUS
    ensures var v := Value(DigitsOf(digits), base);
            Strtoul.StrtoulValue(text, base) == if s == "-" then Wrap32(U32_MODULUS - v) else v
  {
    FieldSubject(text, before, s, digits, after, base);
    hide Strtoul.SubjectOf, Strtoul.RunEnd, DigitOf, DigitsOf, Value;
  }

  lemma Regroup(a: string, b: string, c: string, d: string, e: string)
    ensures a + b + c + d + e == a + b + (c + d) + e
  {
  }

  lemma DigitsInBase(zeros: nat, d: string, base: nat)
    requires base >= 1 && forall k :: 0 <= k < |d| ==> DigitOf(d[k]) < base
    ensures forall k :: 0 <= k < |Repeat('0', zeros) + d| ==> DigitOf((Repeat('0', zeros) + d)[k]) < base
  {
  }

  /** Whatever %d, %u, %x, %X, %o or %b writes without # and precision, strtoul in
      the same base reads back. */
  lemma PrintScanRoundTrip(value: U32, negative: bool, base: nat, width: nat, flags: Flags)
    requires Parsed(negative, base, 0, flags) && !flags.precision && base <= 33
    requires flags.zeroPad && !flags.left ==> width <= NTOA_BUFFER_SIZE
    ensures Strtoul.StrtoulValue(NtoaLongText(value, negative, base, 0, width, flags), base)
         == if negative then Wrap32(U32_MODULUS - value) else value
  {
    var before, zeros, after := FieldParts(value, negative, base, width, flags);
    hide NtoaLongText, Numeral;
    ScanField(before, Sign(negative, flags), zeros, value, base, flags.upper, after);
  }
}
