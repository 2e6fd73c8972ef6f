/** Machine integers of the 32-bit kernel, and the few division facts the
    cluster and slot arithmetic needs. */
module Words {

  const U32_MODULUS := 0x1_0000_0000

  /** A byte of memory or of a disk. */
  newtype Byte = x: int | 0 <= x < 0x100

  type U8 = x: int | 0 <= x < 0x100
  type U16 = x: int | 0 <= x < 0x1_0000
  type U32 = x: int | 0 <= x < 0x1_0000_0000

  /** Unsigned 32-bit wrap-around. */
  function Wrap32(x: int): (r: U32)
    ensures 0 <= x < U32_MODULUS ==> r == x
  {
    x % U32_MODULUS
  }

  /** Reading an unsigned 32-bit word as a signed int. */
  function ToInt32(x: U32): (r: int)
    ensures x < 0x8000_0000 ==> r == x
  {
    if x < 0x8000_0000 then x else x - U32_MODULUS
  }

  /** Division and remainder of C, towards zero. */
  function TruncDiv(n: int, d: nat): int
    requires d > 0
  {
    var m: int := -n;
    if n >= 0 then n / d else -(m / d)
  }

  function TruncRem(n: int, d: nat): (r: int)
    requires d > 0
    ensures -(d as int) < r < d && (n >= 0 ==> r >= 0) && (n <= 0 ==> r <= 0)
  {
    var m: int := -n;
    if n >= 0 then n % d else -(m % d)
  }

  function Min(a: int, b: int): (r: int)
    ensures r <= a && r <= b && (r == a || r == b)
  {
    if a < b then a else b
  }

  function Max(a: int, b: int): (r: int)
    ensures r >= a && r >= b && (r == a || r == b)
  {
    if a < b then b else a
  }

  /** A quotient and remainder within range are the quotient and remainder. */
  lemma DivUnique(a: int, d: int, q: int, r: int)
    requires 0 <= r < d && a == q * d + r
    ensures a / d == q && a % d == r
  {
    var q', r' := a / d, a % d;
    if q' < q {
      MulMono(q' + 1, q, d);
    } else if q < q' {
      MulMono(q + 1, q', d);
    }
  }

  lemma MulMono(a: int, b: int, d: int)
    requires a <= b && 0 <= d
    ensures a * d <= b * d
  {
  }

  lemma Distribute(a: int, b: int, d: int)
    ensures (a + b) * d == a * d + b * d
  {
  }

  /** Adding k whole divisors shifts the quotient by k. */
  lemma DivShift(i: nat, k: nat, d: int)
    requires 0 < d
    ensures 0 <= k * d
    ensures (k * d + i) / d == k + i / d && (k * d + i) % d == i % d
  {
    var q, r := i / d, i % d;
    Distribute(k, q, d);
    DivUnique(k * d + i, d, k + q, r);
  }

  lemma MulBound(a: nat, b: nat, m: nat, n: nat)
    requires a <= m && b <= n
    ensures 0 <= a * b <= m * n
  {
    MulMono(a, m, b);
    MulMono(b, n, m);
  }

  /** The quotient of a position reached by stepping left bytes into a cell. */
  lemma StepInto(pos: int, d: int, q: int, left: int)
    requires 0 < left <= d && pos == q * d + left
    ensures pos / d == q + (if left == d then 1 else 0)
    ensures pos % d == 0 <==> left == d
  {
    if left == d {
      Distribute(q, 1, d);
      DivUnique(pos, d, q + 1, 0);
    } else {
      DivUnique(pos, d, q, left);
    }
  }
}
