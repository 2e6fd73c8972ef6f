/** Numerals: numbers as digit sequences in a base, most significant digit first,
    and the characters that stand for digits. */
module Digits {
  import opened Words
  import opened Bits

  /** The numeral of n, without leading zeros. */
  function ToDigits(n: nat, base: nat): (ds: seq<nat>)
    requires base >= 2
    ensures ds != [] && forall i :: 0 <= i < |ds| ==> ds[i] < base
    ensures ds[0] == 0 ==> n == 0
    decreases n
  {
    if n < base then [n] else
      DivShrinks(n, base);
      ToDigits(n / base, base) + [n % base]
  }

  lemma DivShrinks(n: nat, base: nat)
    requires base >= 2 && n >= base
    ensures 0 < n / base < n
  {
  }

  /** The number that a digit sequence stands for. */
  function Value(ds: seq<nat>, base: nat): nat {
    if ds == [] then 0 else Value(ds[..|ds| - 1], base) * base + ds[|ds| - 1]
  }

  /** Reading a numeral back gives the number. */
  lemma {:induction false} ValueOfToDigits(n: nat, base: nat)
    requires base >= 2
    ensures Value(ToDigits(n, base), base) == n
    decreases n
  {
    ToDigitsStep(n, base);
    hide Value, ToDigits;
    if n < base {
      ValueAppend([], n, base);
      assert [] + [n] == [n];
      EmptyValue(base);
    } else {
      ValueOfToDigits(n / base, base);
      ValueAppend(ToDigits(n / base, base), n % base, base);
      Euclid(n, base);
    }
  }

  lemma ToDigitsStep(n: nat, base: nat)
    requires base >= 2
    ensures n < base ==> ToDigits(n, base) == [n]
    ensures n >= base ==> 0 < n / base < n && ToDigits(n, base) == ToDigits(n / base, base) + [n % base]
  {
    if n >= base {
      DivShrinks(n, base);
    }
  }

  lemma EmptyValue(base: nat)
    ensures Value([], base) == 0
  {
  }

  lemma Euclid(n: nat, base: nat)
    requires base >= 1
    ensures n / base * base + n % base == n
  {
  }

  lemma ValueAppend(ds: seq<nat>, d: nat, base: nat)
    ensures Value(ds + [d], base) == Value(ds, base) * base + d
  {
    assert (ds + [d])[..|ds|] == ds;
  }

  function Zeros(k: nat): (ds: seq<nat>)
    ensures |ds| == k && forall i :: 0 <= i < k ==> ds[i] == 0
  {
    seq(k, _ => 0)
  }

  /** Leading zeros do not change the value. */
  lemma {:induction false} ValueOfPadded(k: nat, ds: seq<nat>, base: nat)
    ensures Value(Zeros(k) + ds, base) == Value(ds, base)
  {
    if ds != [] {
      var all := Zeros(k) + ds;
      assert all[..|all| - 1] == Zeros(k) + ds[..|ds| - 1];
      ValueOfPadded(k, ds[..|ds| - 1], base);
    } else if k > 0 {
      assert Zeros(k) + ds == Zeros(k);
      assert Zeros(k)[..k - 1] == Zeros(k - 1) + [];
      ValueOfPadded(k - 1, [], base);
    }
  }

  /** A number below 2^k has at most k digits, and half as many from base 4 up. */
  lemma {:induction false} DigitCount(n: nat, base: nat, k: nat)
    requires base >= 2 && k > 0 && n < Pow2(k)
    ensures |ToDigits(n, base)| <= k
    ensures base >= 4 ==> |ToDigits(n, base)| <= (k + 1) / 2
    decreases n
  {
    ToDigitsStep(n, base);
    assert Pow2(1) == 2 && Pow2(2) == 4;
    if n >= base && base >= 4 && k > 2 {
      assert Pow2(k) == 4 * Pow2(k - 2);
      hide ToDigits, Pow2;
      Quotient(n, base, 4);
      DigitCount(n / base, base, k - 2);
    } else if n >= base && base < 4 && k > 1 {
      assert Pow2(k) == 2 * Pow2(k - 1);
      hide ToDigits, Pow2;
      Quotient(n, base, 2);
      DigitCount(n / base, base, k - 1);
    }
  }

  /** A larger divisor gives no larger quotient. */
  lemma Quotient(n: nat, base: nat, least: nat)
    requires base >= least > 0
    ensures n / base * least <= n
  {
    MulMono(least, base, n / base);
  }

  /** A 32-bit number has at most 32 digits, and at most 16 from base 4 up. */
  lemma DigitsOfWord(n: U32, base: nat)
    requires base >= 2
    ensures |ToDigits(n, base)| <= 32
    ensures base >= 4 ==> |ToDigits(n, base)| <= 16
  {
    assert Pow2(8) == 0x100;
    assert Pow2(16) == 0x1_0000;
    assert Pow2(24) == 0x100_0000;
    assert Pow2(32) == 0x1_0000_0000;
    DigitCount(n, base, 32);
  }

  /** The character for a digit below 36. */
  function DigitChar(d: nat, upper: bool): (c: char)
    requires d < 36
    ensures DigitOf(c) == d
  {
    if d < 10 then '0' + d as char else (if upper then 'A' else 'a') + (d - 10) as char
  }

  /** The digit a character stands for; 36 or more for none. */
  function DigitOf(c: char): nat {
    if '0' <= c <= '9' then c as int - '0' as int
    else if 'a' <= c <= 'z' then c as int - 'a' as int + 10
    else if 'A' <= c <= 'Z' then c as int - 'A' as int + 10
    else 36
  }

  /** The digits of a string. */
  function DigitsOf(s: string): (ds: seq<nat>)
    ensures |ds| == |s| && forall i :: 0 <= i < |s| ==> ds[i] == DigitOf(s[i])
  {
    seq(|s|, i requires 0 <= i < |s| => DigitOf(s[i]))
  }

  /** A digit sequence written out. */
  function Chars(ds: seq<nat>, upper: bool): (s: string)
    requires forall i :: 0 <= i < |ds| ==> ds[i] < 36
    ensures |s| == |ds| && DigitsOf(s) == ds
    ensures forall i :: 0 <= i < |ds| ==> s[i] == DigitChar(ds[i], upper)
  {
    var s := seq(|ds|, i requires 0 <= i < |ds| => DigitChar(ds[i], upper));
    assert DigitsOf(s) == ds;
    s
  }

  /** The written numeral of n. */
  function Numeral(n: nat, base: nat, upper: bool): (s: string)
    requires 2 <= base <= 36
    ensures s != [] && forall i :: 0 <= i < |s| ==> DigitOf(s[i]) < base
  {
    Chars(ToDigits(n, base), upper)
  }

  /** A letter of the one case, or no letter. */
  predicate InCase(c: char, upper: bool) {
    if upper then !('a' <= c <= 'z') else !('A' <= c <= 'Z')
  }

  /** A written numeral reads as the number, has no leading zeros, and letters of
      one case. */
  lemma NumeralReads(n: nat, base: nat, upper: bool)
    requires 2 <= base <= 36
    ensures var s := Numeral(n, base, upper);
            && Value(DigitsOf(s), base) == n
            && (s[0] == '0' ==> n == 0 && s == "0")
            && forall i :: 0 <= i < |s| ==> DigitOf(s[i]) < base && InCase(s[i], upper)
  {
    hide Value;
    ValueOfToDigits(n, base);
    var s, ds := Numeral(n, base, upper), ToDigits(n, base);
    assert DigitOf(s[0]) == ds[0];
    assert forall i :: 0 <= i < |s| ==> s[i] == DigitChar(ds[i], upper);
  }

  /** Character i of a C string; the terminator from its end on. */
  function CharAt(s: string, i: nat): char {
    if i < |s| then s[i] else '\0'
  }

  predicate IsDigit(c: char) {
    '0' <= c <= '9'
  }
}
