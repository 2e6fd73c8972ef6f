/** kern/stdlib.c: atoi. */
module Atoi {
  import opened Words
  import opened Digits

  const INT_MAX := 0x7fff_ffff

  /** The digits of a decimal string: what follows an optional sign. */
  function Unsigned(s: string): string {
    if s != [] && (s[0] == '-' || s[0] == '+') then s[1..] else s
  }

  ghost predicate Decimal(s: string) {
    forall i :: 0 <= i < |Unsigned(s)| ==> '0' <= Unsigned(s)[i] <= '9'
  }

  /** What a decimal string stands for. */
  function SignedValue(s: string): int {
    var v: int := Value(DigitsOf(Unsigned(s)), 10);
    if s != [] && s[0] == '-' then -v else v
  }

  // ---- atoi on any characters

  /** An int of 32 bits, wrapped around. */
  function Int32(x: int): (r: int)
    ensures -INT_MAX - 1 <= r <= INT_MAX
    ensures -INT_MAX - 1 <= x <= INT_MAX ==> r == x
  {
    ToInt32(Wrap32(x))
  }

  /** What atoi takes a character for: its distance from '0', as a signed char. */
  function CharValue(c: char): int {
    var b := c as int % 0x100;
    (if b < 0x80 then b else b - 0x100) - '0' as int
  }

  /** The loop of atoi counts down from zero. */
  function Fold(s: string): int {
    if s == [] then 0 else Int32(10 * Fold(s[..|s| - 1]) - CharValue(s[|s| - 1]))
  }

  /** What atoi returns for a string, decimal or not. */
  function Parsed(s: string): int {
    var n := Fold(Unsigned(s));
    if s != [] && s[0] == '-' then n else Int32(-n)
  }

  lemma {:induction false} FoldDecimal(s: string)
    requires forall i :: 0 <= i < |s| ==> '0' <= s[i] <= '9'
    requires Value(DigitsOf(s), 10) <= INT_MAX + 1
    ensures var v: int := Value(DigitsOf(s), 10); Fold(s) == -v
  {
    if s != [] {
      var n := |s| - 1;
      var ds := DigitsOf(s);
      assert ds == DigitsOf(s[..n]) + [DigitOf(s[n])];
      ValueAppend(DigitsOf(s[..n]), DigitOf(s[n]), 10);
      hide Value;
      FoldDecimal(s[..n]);
    }
  }

  /** On a decimal string whose value is an int, the least one included, atoi
      returns the value. */
  lemma ParsedDecimal(s: string)
    requires Decimal(s) && -INT_MAX - 1 <= SignedValue(s) <= INT_MAX
    ensures Parsed(s) == SignedValue(s)
  {
    FoldDecimal(Unsigned(s));
    hide Fold, Value, Unsigned;
  }

  /** atoi. */
  method ParseInt(s: string) returns (r: int)
    ensures r == Parsed(s)
  {
    var negative := s != [] && s[0] == '-';
    var rest := if s != [] && (s[0] == '-' || s[0] == '+') then s[1..] else s;
    var n, p := 0, 0;
    while p < |rest|
      invariant 0 <= p <= |rest| && n == Fold(rest[..p])
    {
      assert rest[..p + 1][..p] == rest[..p];
      n := Int32(10 * n - CharValue(rest[p]));
      p := p + 1;
    }
    assert rest[..p] == rest;
    r := if negative then n else Int32(-n);
  }

  /** A written numeral is read back. */
  lemma ReadNumeral(n: nat, upper: bool)
    ensures var s := Numeral(n, 10, upper);
            Decimal(s) && Unsigned(s) == s && SignedValue(s) == n
  {
    ValueOfToDigits(n, 10);
    var s := Numeral(n, 10, upper);
    forall i | 0 <= i < |s|
      ensures '0' <= s[i] <= '9'
    {
      assert DigitOf(s[i]) < 10;
    }
    assert s[0] != '-' && s[0] != '+';
  }
}
