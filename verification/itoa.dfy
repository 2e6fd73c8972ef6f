/** kern/stdlib.c: itoa and reverse. */
module Itoa {
  import opened Words
  import opened Buffers
  import opened Digits
  import opened Atoi

  const INT_MIN := -0x8000_0000

  /** The character of a remainder: below '0' for a negative one. */
  function RemChar(r: int): char
    requires -32 < r < 32
  {
    if r >= 10 then 'A' + (r - 10) as char else ('0' as int + r) as char
  }

  /** The digit loop of itoa: the digits of n, last one first. */
  function RevDigits(n: int, base: nat): string
    requires 2 <= base <= 32
    decreases if n < 0 then -n else n
  {
    if n == 0 then "" else
      Smaller(n, base);
      [RemChar(TruncRem(n, base))] + RevDigits(TruncDiv(n, base), base)
  }

  lemma Smaller(n: int, base: nat)
    requires base >= 2 && n != 0
    ensures n > 0 ==> 0 <= TruncDiv(n, base) < n
    ensures n < 0 ==> n < TruncDiv(n, base) <= 0
    ensures TruncDiv(n, base) == 0 ==> TruncRem(n, base) == n
  {
    var m: int := if n < 0 then -n else n;
    SmallerNat(m, base);
  }

  lemma SmallerNat(n: nat, base: nat)
    requires base >= 2 && n != 0
    ensures 0 <= n / base < n && (n / base == 0 ==> n % base == n)
  {
    if n < base {
      DivUnique(n, base, 0, n);
    } else {
      DivShrinks(n, base);
    }
  }

  /** The negation of C, on 32 bits: the least int has none, and stays. */
  function Negated(v: int): int {
    if v == INT_MIN then INT_MIN else -v
  }

  function Sign(v: int, base: nat): string {
    if v < 0 && base == 10 then "-" else ""
  }

  /** The buffer of itoa before it is reversed. */
  function RevText(v: int, base: nat): string
    requires 2 <= base <= 32
  {
    var digits := RevDigits(if v < 0 then Negated(v) else v, base);
    (if digits == "" then "0" else digits) + Sign(v, base)
  }

  /** What itoa is for: the magnitude in the base, with a sign in decimal only. */
  function Text(v: int, base: nat): string
    requires 2 <= base <= 32
  {
    Sign(v, base) + Numeral(if v < 0 then -v else v, base, true)
  }

  lemma ReverseAppend<T>(s: seq<T>, t: seq<T>)
    ensures Reverse(s + t) == Reverse(t) + Reverse(s)
  {
  }

  lemma {:induction false} RevDigitsIsNumeral(n: nat, base: nat)
    requires 2 <= base <= 32 && n > 0
    ensures Reverse(RevDigits(n, base)) == Numeral(n, base, true)
    decreases n
  {
    Smaller(n, base);
    NumeralStep(n, base);
    var c := RemChar(TruncRem(n, base));
    assert RevDigits(n, base) == [c] + RevDigits(TruncDiv(n, base), base);
    hide RevDigits, Numeral, RemChar;
    if n < base {
      DivUnique(n, base, 0, n);
      NoDigits(base);
      assert Reverse([c] + "") == [c];
    } else {
      RevDigitsIsNumeral(n / base, base);
      ReverseAppend([c], RevDigits(n / base, base));
      assert Reverse([c]) == [c];
    }
  }

  lemma NoDigits(base: nat)
    requires 2 <= base <= 32
    ensures RevDigits(0, base) == ""
  {
  }

  /** The last character of a numeral. */
  lemma NumeralStep(n: nat, base: nat)
    requires 2 <= base <= 32
    ensures n < base ==> Numeral(n, base, true) == [RemChar(n)]
    ensures n >= base ==> 0 < n / base < n
                          && Numeral(n, base, true) == Numeral(n / base, base, true) + [RemChar(n % base)]
  {
    ToDigitsStep(n, base);
  }

  /** The last character written for a negative number is no digit. */
  lemma {:induction false} NegativeDigits(n: int, base: nat)
    requires 2 <= base <= 32 && n < 0
    ensures var s := RevDigits(n, base); s != "" && s[|s| - 1] < '0'
    decreases -n
  {
    Smaller(n, base);
    if TruncDiv(n, base) < 0 {
      NegativeDigits(TruncDiv(n, base), base);
    }
  }

  /** itoa writes the number exactly when it is not the least int. */
  lemma ItoaCorrect(v: int, base: nat)
    requires INT_MIN <= v <= INT_MAX && 2 <= base <= 32
    ensures Reverse(RevText(v, base)) == Text(v, base) <==> v != INT_MIN
  {
    var n := if v < 0 then Negated(v) else v;
    var digits := RevDigits(n, base);
    var sign := Sign(v, base);
    assert Reverse(sign) == sign;
    ReverseAppend(if digits == "" then "0" else digits, sign);
    if v == INT_MIN {
      NegativeDigits(v, base);
      var numeral := Numeral(-v, base, true);
      assert Reverse(RevText(v, base))[|sign|] == digits[|digits| - 1];
      assert Text(v, base)[|sign|] == numeral[0];
      assert DigitOf(numeral[0]) < base;
    } else if v != 0 {
      RevDigitsIsNumeral(n, base);
    } else {
      assert Numeral(0, base, true) == "0" && Reverse("0") == "0";
    }
  }

  /** Read in its base the text is the magnitude, a minus sign comes in decimal
      only, there are no leading zeros, and letters are capitals. */
  lemma ItoaReads(v: int, base: nat)
    requires INT_MIN < v <= INT_MAX && 2 <= base <= 32
    ensures var text := Reverse(RevText(v, base));
            var d := if v < 0 && base == 10 then text[1..] else text;
            && text != "" && d != "" && (v < 0 && base == 10 ==> text[0] == '-')
            && Value(DigitsOf(d), base) == (if v < 0 then -v else v)
            && (d[0] == '0' ==> d == "0")
            && forall i :: 0 <= i < |d| ==> DigitOf(d[i]) < base && InCase(d[i], true)
  {
    hide RevText, Value, Numeral, DigitOf, DigitsOf;
    var m := if v < 0 then -v else v;
    ItoaCorrect(v, base);
    NumeralReads(m, base, true);
    var n := Numeral(m, base, true);
    assert "" + n == n && ("-" + n)[1..] == n;
  }

  /** atoi reads back what itoa writes in decimal. */
  lemma AtoiItoa(v: int)
    requires INT_MIN < v <= INT_MAX
    ensures Parsed(Reverse(RevText(v, 10))) == v
  {
    hide RevText, Numeral;
    ItoaCorrect(v, 10);
    ReadNumeral(if v < 0 then -v else v, true);
    if v < 0 {
      SignedNumeral(Numeral(-v, 10, true));
    } else {
      assert "" + Numeral(v, 10, true) == Numeral(v, 10, true);
    }
    ParsedDecimal(Text(v, 10));
  }

  lemma SignedNumeral(d: string)
    requires Decimal(d) && Unsigned(d) == d && d != ""
    ensures Decimal("-" + d) && SignedValue("-" + d) == -SignedValue(d)
  {
    assert ("-" + d)[1..] == d;
  }

  /** reverse. */
  method ReverseRange(buffer: array<char>, from: int, to: int)
    requires 0 <= from <= to + 1 <= buffer.Length
    modifies buffer
    ensures buffer[..] == old(buffer[..from]) + Reverse(old(buffer[from..to + 1])) + old(buffer[to + 1..])
  {
    ghost var was := buffer[..];
    var i, j := from, to;
    while i < j
      invariant from <= i && j <= to && i + j == from + to && i <= j + 1
      invariant Swapped(buffer[..], was, from, to, i, j)
    {
      ghost var now := buffer[..];
      SwapNext(now, was, from, to, i, j);
      buffer[i], buffer[j] := buffer[j], buffer[i];
      assert buffer[..] == now[i := now[j]][j := now[i]];
      i, j := i + 1, j - 1;
    }
    AllSwapped(buffer[..], was, from, to, i, j);
  }

  /** Outside i to j, what is between from and to is mirrored. */
  ghost predicate Swapped(now: string, was: string, from: int, to: int, i: int, j: int) {
    && |now| == |was| && 0 <= from <= i <= to + 1 && from - 1 <= j && to < |was|
    && forall k :: 0 <= k < |now| ==>
         now[k] == was[if from <= k < i || j < k <= to then from + to - k else k]
  }

  lemma SwapNext(now: string, was: string, from: int, to: int, i: int, j: int)
    requires Swapped(now, was, from, to, i, j) && from <= i < j <= to && i + j == from + to
    ensures |now| == |was| && Swapped(now[i := now[j]][j := now[i]], was, from, to, i + 1, j - 1)
  {
    var next := now[i := now[j]][j := now[i]];
    forall k | 0 <= k < |next|
      ensures next[k] == was[if from <= k < i + 1 || j - 1 < k <= to then from + to - k else k]
    {
      assert now[k] == was[if from <= k < i || j < k <= to then from + to - k else k];
    }
  }

  lemma AllSwapped(now: string, was: string, from: int, to: int, i: int, j: int)
    requires Swapped(now, was, from, to, i, j) && from <= i && j <= to && j <= i <= j + 1 && i + j == from + to
    ensures now == was[..from] + Reverse(was[from..to + 1]) + was[to + 1..]
  {
    var parts := was[..from] + Reverse(was[from..to + 1]) + was[to + 1..];
    forall k | 0 <= k < |now|
      ensures now[k] == parts[k]
    {
      assert now[k] == was[if from <= k < i || j < k <= to then from + to - k else k];
      if from <= k <= to {
        assert parts[k] == Reverse(was[from..to + 1])[k - from] == was[from + to - k];
      }
    }
  }

  /** itoa. For a base that it does not know it leaves the buffer alone. */
  method Itoa(value: int, buffer: array<char>, base: int)
    requires INT_MIN <= value <= INT_MAX
    requires 2 <= base <= 32 ==> |RevText(value, base)| < buffer.Length
    modifies buffer
    ensures !(2 <= base <= 32) ==> buffer[..] == old(buffer[..])
    ensures 2 <= base <= 32 ==>
              buffer[..] == Patch(old(buffer[..]), 0, Reverse(RevText(value, base)) + ['\0'])
  {
    if base < 2 || base > 32 {
      return;
    }
    hide RevText;
    var i := FillReversed(value, buffer, base);
    buffer[i] := '\0';
    ReverseRange(buffer, 0, i - 1);
  }

  /** The first part of itoa. */
  method FillReversed(value: int, buffer: array<char>, base: nat) returns (i: nat)
    requires INT_MIN <= value <= INT_MAX && 2 <= base <= 32 && |RevText(value, base)| < buffer.Length
    modifies buffer
    ensures i == |RevText(value, base)| && i > 0
    ensures buffer[..] == Patch(old(buffer[..]), 0, RevText(value, base))
  {
    var n := if value < 0 then Negated(value) else value;
    ghost var was := buffer[..];
    ghost var digits := RevDigits(n, base);
    i := FillDigits(n, buffer, base);
    hide RevDigits, Patch;
    if i == 0 {
      buffer[i] := '0';
      i := i + 1;
    }
    ghost var text := if digits == "" then "0" else digits;
    assert buffer[..] == Patch(was, 0, text) && i == |text| by {
      PatchStep(was, "", '0');
    }
    if value < 0 && base == 10 {
      PatchStep(was, text, '-');
      buffer[i] := '-';
      i := i + 1;
    }
    assert text + "" == text;
  }

  lemma PatchStep(was: string, t: string, c: char)
    requires |t| < |was|
    ensures Patch(was, 0, t)[|t| := c] == Patch(was, 0, t + [c])
  {
  }

  /** The digit loop of itoa. */
  method FillDigits(value: int, buffer: array<char>, base: nat) returns (i: nat)
    requires 2 <= base <= 32 && |RevDigits(value, base)| < buffer.Length
    modifies buffer
    ensures i == |RevDigits(value, base)| && buffer[..] == Patch(old(buffer[..]), 0, RevDigits(value, base))
  {
    ghost var was, digits := buffer[..], RevDigits(value, base);
    hide RevDigits, Patch, TruncDiv, TruncRem;
    PatchNothing(was, 0);
    NoDigits(base);
    var n := value;
    i := 0;
    while n != 0
      invariant 0 <= i <= |digits| && digits == digits[..i] + RevDigits(n, base)
      invariant buffer[..] == Patch(was, 0, digits[..i])
      decreases if n < 0 then -n else n
    {
      Smaller(n, base);
      NextDigit(digits, i, n, base);
      PatchStep(was, digits[..i], digits[i]);
      ghost var now := buffer[..];
      var rem := TruncRem(n, base);
      if rem >= 10 {
        buffer[i] := 'A' + (rem - 10) as char;
      } else {
        buffer[i] := ('0' as int + rem) as char;
      }
      assert buffer[..] == now[i := digits[i]];
      i := i + 1;
      n := TruncDiv(n, base);
    }
    assert digits[..i] == digits;
  }

  lemma NextDigit(digits: string, i: nat, n: int, base: nat)
    requires 2 <= base <= 32 && n != 0 && i <= |digits| && digits == digits[..i] + RevDigits(n, base)
    ensures i < |digits| && digits[i] == RemChar(TruncRem(n, base))
    ensures digits[..i + 1] == digits[..i] + [digits[i]]
    ensures digits == digits[..i + 1] + RevDigits(TruncDiv(n, base), base)
  {
    Smaller(n, base);
    var rest := RevDigits(TruncDiv(n, base), base);
    assert RevDigits(n, base) == [RemChar(TruncRem(n, base))] + rest;
    hide RevDigits;
    assert digits[i..] == [RemChar(TruncRem(n, base))] + rest;
  }
}
