/** Bitwise operators on natural numbers. */
module Bits {
  import opened Words

  function Pow2(k: nat): (r: nat)
    ensures r > 0
  {
    if k == 0 then 1 else 2 * Pow2(k - 1)
  }

  function And(a: nat, b: nat): nat {
    if a == 0 || b == 0 then 0 else 2 * And(a / 2, b / 2) + (a % 2) * (b % 2)
  }

  function Xor(a: nat, b: nat): nat
    decreases a + b
  {
    if a == 0 then b else if b == 0 then a else 2 * Xor(a / 2, b / 2) + (a % 2 + b % 2) % 2
  }

  /** Masking with 2^k - 1 is reducing modulo 2^k. */
  lemma {:induction false} MaskIsMod(a: nat, k: nat)
    ensures And(a, Pow2(k) - 1) == a % Pow2(k)
  {
    if k > 0 {
      var m := Pow2(k - 1);
      MaskIsMod(a / 2, k - 1);
      MaskStep(a, m);
      HalfMod(a, m);
      assert Pow2(k) == 2 * m;
      hide Pow2, And;
    }
  }

  /** The lowest bit of a mask is set. */
  lemma MaskStep(a: nat, m: nat)
    requires m > 0
    ensures And(a, 2 * m - 1) == 2 * And(a / 2, m - 1) + a % 2
  {
    assert (2 * m - 1) / 2 == m - 1 && (2 * m - 1) % 2 == 1;
  }

  lemma HalfMod(a: nat, m: nat)
    requires m > 0
    ensures a % (2 * m) == 2 * (a / 2 % m) + a % 2
  {
    var q, r := a / 2 / m, a / 2 % m;
    assert q * (2 * m) == 2 * (q * m);
    DivUnique(a, 2 * m, q, 2 * r + a % 2);
  }

  /** Exclusive or with a number below 2^k leaves the bits from k on alone. */
  lemma {:induction false} XorHigh(a: nat, b: nat, k: nat)
    requires b < Pow2(k)
    ensures Xor(a, b) == a / Pow2(k) * Pow2(k) + Xor(a % Pow2(k), b)
    decreases k
  {
    if k > 0 {
      var m := Pow2(k - 1);
      XorHigh(a / 2, b / 2, k - 1);
      HalfMod(a, m);
      XorStep(a, b);
      XorStep(a % (2 * m), b);
      HighHalf(a, m);
      hide Pow2, Xor;
    }
  }

  lemma XorStep(a: nat, b: nat)
    ensures Xor(a, b) == 2 * Xor(a / 2, b / 2) + (a % 2 + b % 2) % 2
  {
  }

  lemma HighHalf(a: nat, m: nat)
    requires m > 0
    ensures a / (2 * m) == a / 2 / m && a / (2 * m) * (2 * m) == 2 * (a / 2 / m * m)
    ensures a % (2 * m) / 2 == a / 2 % m && a % (2 * m) % 2 == a % 2
  {
    var q, r := a / 2 / m, a / 2 % m;
    assert q * (2 * m) == 2 * (q * m);
    DivUnique(a, 2 * m, q, 2 * r + a % 2);
  }

  /** Bit k of n. */
  function BitAt(n: nat, k: nat): nat {
    if k == 0 then n % 2 else BitAt(n / 2, k - 1)
  }

  /** Exclusive or, bit by bit. */
  lemma {:induction false} XorBit(a: nat, b: nat, k: nat)
    ensures BitAt(Xor(a, b), k) == (BitAt(a, k) + BitAt(b, k)) % 2
  {
    NoBit(k);
    BitIsBit(a, k);
    BitIsBit(b, k);
    if a != 0 && b != 0 && k > 0 {
      XorBit(a / 2, b / 2, k - 1);
    }
  }

  lemma {:induction false} NoBit(k: nat)
    ensures BitAt(0, k) == 0
  {
    if k > 0 {
      NoBit(k - 1);
    }
  }

  lemma {:induction false} BitIsBit(n: nat, k: nat)
    ensures 0 <= BitAt(n, k) <= 1
  {
    if k > 0 {
      BitIsBit(n / 2, k - 1);
    }
  }
}
