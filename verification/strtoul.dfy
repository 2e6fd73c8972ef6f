/** kern/stdlib.c: strtoul, without its end pointer. */
module Strtoul {
  import opened Words
  import opened Digits

  const ULONG_MAX: U32 := 0xffff_ffff

  predicate IsSpace(c: char) {
    c == '\t' || c == '\n' || c == 11 as char || c == 12 as char || c == '\r' || c == ' '
  }

  predicate IsUpper(c: char) {
    'A' <= c <= 'Z'
  }

  predicate IsAlpha(c: char) {
    'a' <= c <= 'z' || IsUpper(c)
  }

  /** The end of the white space from i on. */
  function SpaceEnd(s: string, i: nat): (j: nat)
    requires i <= |s|
    ensures i <= j <= |s|
    ensures forall k :: i <= k < j ==> IsSpace(s[k])
    ensures j < |s| ==> !IsSpace(s[j])
    decreases |s| - i
  {
    if i < |s| && IsSpace(s[i]) then SpaceEnd(s, i + 1) else i
  }

  /** The end of the longest run of digits of the base from i on. */
  function RunEnd(s: string, i: nat, base: nat): (j: nat)
    requires i <= |s|
    ensures i <= j <= |s|
    ensures forall k :: i <= k < j ==> DigitOf(s[k]) < base
    ensures j < |s| ==> DigitOf(s[j]) >= base
    decreases |s| - i
  {
    if i < |s| && DigitOf(s[i]) < base then RunEnd(s, i + 1, base) else i
  }

  /** Where the digits start, in which base, and whether a minus came before. */
  datatype Subject = Subject(start: nat, base: nat, negative: bool)

  /** The subject of the conversion: after white space and a sign, a 0x prefix
      where the base admits one, and the base that the prefix implies. */
  function SubjectOf(s: string, base: nat): (r: Subject)
    requires base == 0 || 2 <= base <= 36
    ensures r.start <= |s| && 2 <= r.base <= 36 && (base != 0 ==> r.base == base)
  {
    var p := SpaceEnd(s, 0);
    var signed := CharAt(s, p) == '-' || CharAt(s, p) == '+';
    var q := if signed then p + 1 else p;
    var hex := (base == 0 || base == 16) && CharAt(s, q) == '0'
               && (CharAt(s, q + 1) == 'x' || CharAt(s, q + 1) == 'X');
    Subject(if hex then q + 2 else q,
            if hex then 16 else if base != 0 then base else if CharAt(s, q) == '0' then 8 else 10,
            CharAt(s, p) == '-')
  }

  /** The number that the digits of the subject spell out, however large. */
  function Magnitude(s: string, base: nat): nat
    requires base == 0 || 2 <= base <= 36
  {
    var r := SubjectOf(s, base);
    Spelled(s, r.start, RunEnd(s, r.start, r.base), r.base)
  }

  /** What strtoul returns (C99, 7.20.1.4): the value of the longest digit
      prefix, negated after a minus sign, and the largest value exactly when the
      true one is out of range. */
  function StrtoulValue(s: string, base: nat): U32
    requires base == 0 || 2 <= base <= 36
  {
    var v := Magnitude(s, base);
    if v > ULONG_MAX then ULONG_MAX else if SubjectOf(s, base).negative then Wrap32(U32_MODULUS - v) else v
  }

  function Cutoff(base: nat): (r: U32)
    requires 2 <= base <= 36
  {
    ULONG_MAX / base
  }

  function Cutlim(base: nat): (r: U32)
    requires 2 <= base <= 36
  {
    ULONG_MAX % base
  }

  /** The cutoff test is exact: it holds when one more digit overflows. */
  lemma CutoffIsExact(acc: U32, base: nat, c: nat)
    requires 2 <= base <= 36 && c < base
    ensures acc > Cutoff(base) || (acc == Cutoff(base) && c > Cutlim(base)) <==> acc * base + c > ULONG_MAX
  {
    var cutoff := Cutoff(base);
    if acc > cutoff {
      MulMono(cutoff + 1, acc, base);
      Distribute(cutoff, 1, base);
    } else if acc < cutoff {
      MulMono(acc + 1, cutoff, base);
      Distribute(acc, 1, base);
    }
  }

  /** The number that the digits s[i..j] spell out. */
  function Spelled(s: string, i: nat, j: nat, base: nat): nat
    requires i <= j <= |s|
  {
    Value(DigitsOf(s[i..j]), base)
  }

  lemma SpelledNext(s: string, i: nat, j: nat, base: nat)
    requires i <= j < |s|
    ensures Spelled(s, i, j + 1, base) == Spelled(s, i, j, base) * base + DigitOf(s[j])
  {
    assert DigitsOf(s[i..j + 1]) == DigitsOf(s[i..j]) + [DigitOf(s[j])];
    ValueAppend(DigitsOf(s[i..j]), DigitOf(s[j]), base);
  }

  /** One more digit, with the overflow test of strtoul. Overflow is sticky: more
      digits never make the value smaller. */
  lemma NextDigit(s: string, i: nat, j: nat, base: nat, acc: U32)
    requires i <= j < |s| && 2 <= base <= 36 && DigitOf(s[j]) < base
    ensures Spelled(s, i, j + 1, base) >= Spelled(s, i, j, base)
    ensures acc == Spelled(s, i, j, base) ==>
              Spelled(s, i, j + 1, base) == acc * base + DigitOf(s[j])
    ensures acc == Spelled(s, i, j, base) ==>
              (acc > Cutoff(base) || (acc == Cutoff(base) && DigitOf(s[j]) > Cutlim(base))
               <==> Spelled(s, i, j + 1, base) > ULONG_MAX)
  {
    SpelledNext(s, i, j, base);
    CutoffIsExact(acc, base, DigitOf(s[j]));
    hide Spelled, Cutoff, Cutlim, DigitOf;
    NotSmaller(Spelled(s, i, j, base), base);
  }

  lemma NotSmaller(v: nat, base: nat)
    requires base >= 1
    ensures v * base >= v
  {
    MulMono(1, base, v);
  }

  /** strtoul. */
  method Strtoul(s: string, base: nat) returns (acc: U32)
    requires base == 0 || 2 <= base <= 36
    requires forall i :: 0 <= i < |s| ==> s[i] != '\0'
    ensures acc == StrtoulValue(s, base)
  {
    hide SubjectOf, Spelled;
    var subject := FindSubject(s, base);
    var any: int;
    acc, any := Convert(s, subject.start, subject.base);
    if any < 0 {
      acc := ULONG_MAX;
    } else if subject.negative {
      acc := Wrap32(U32_MODULUS - acc);
    }
  }

  /** The part of strtoul before the digits: white space, sign, prefix. */
  method FindSubject(s: string, base: nat) returns (r: Subject)
    requires base == 0 || 2 <= base <= 36
    ensures r == SubjectOf(s, base)
  {
    var neg := false;
    var p := 0;
    while IsSpace(CharAt(s, p))
      invariant 0 <= p <= |s| && SpaceEnd(s, p) == SpaceEnd(s, 0)
      decreases |s| - p
    {
      p := p + 1;
    }
    if CharAt(s, p) == '-' {
      neg := true;
      p := p + 1;
    } else if CharAt(s, p) == '+' {
      p := p + 1;
    }
    var next := CharAt(s, p + 1);
    var b := base;
    if (base == 0 || base == 16) && CharAt(s, p) == '0' && (next == 'x' || next == 'X') {
      p := p + 2;
      b := 16;
    }
    if b == 0 {
      b := if CharAt(s, p) == '0' then 8 else 10;
    }
    r := Subject(p, b, neg);
  }

  /** The digit loop of strtoul; any is negative after an overflow. */
  method Convert(s: string, start: nat, base: nat) returns (acc: U32, any: int)
    requires start <= |s| && 2 <= base <= 36
    ensures var v := Spelled(s, start, RunEnd(s, start, base), base);
            (any < 0 <==> v > ULONG_MAX) && (any >= 0 ==> acc == v)
  {
    var cutoff, cutlim := Cutoff(base), Cutlim(base);
    var p := start;
    acc, any := 0, 0;
    assert Spelled(s, start, start, base) == 0;
    hide Spelled, Cutoff, Cutlim;
    while true
      invariant start <= p <= |s| && RunEnd(s, p, base) == RunEnd(s, start, base)
      invariant any < 0 <==> Spelled(s, start, p, base) > ULONG_MAX
      invariant any >= 0 ==> acc == Spelled(s, start, p, base)
      decreases |s| - p
    {
      var ch := CharAt(s, p);
      var c: int := ch as int;
      if IsDigit(ch) {
        c := c - '0' as int;
      } else if IsAlpha(ch) {
        c := c - (if IsUpper(ch) then 'A' as int - 10 else 'a' as int - 10);
      } else {
        break;
      }
      if c >= base {
        break;
      }
      NextDigit(s, start, p, base, acc);
      if any < 0 || acc > cutoff || (acc == cutoff && c > cutlim) {
        any := -1;
      } else {
        any := 1;
        acc := acc * base + c;
      }
      p := p + 1;
    }
  }
}
