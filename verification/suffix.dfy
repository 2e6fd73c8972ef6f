/** kern/io/driver.c: finding an unused device number with a bitmap. */
module Suffix {
  import opened Words
  import opened Digits
  import opened Devices
  import Atoi

  /** The numbers that the bitmap has bits for. */
  const LIMIT := 512

  predicate HasPrefix(name: string, prefix: string) {
    |prefix| <= |name| && name[..|prefix|] == prefix
  }

  /** What atoi reads behind the prefix. */
  function NumberOf(name: string, prefix: string): int
    requires HasPrefix(name, prefix)
  {
    Atoi.Parsed(name[|prefix|..])
  }

  /** The number is one that the code asserts not to occur. */
  predicate TooLarge(name: string, prefix: string) {
    HasPrefix(name, prefix) && NumberOf(name, prefix) >= LIMIT
  }

  /** The number is one that the code neither checks nor has a bit for. */
  predicate Negative(name: string, prefix: string) {
    HasPrefix(name, prefix) && NumberOf(name, prefix) < 0
  }

  /** The search ends with a number, or with a failed assertion, which halts the
      kernel, or in undefined behaviour: a bit chosen by a negative number. */
  datatype Result = Available(n: nat) | Halted | Undefined(index: int, shift: int)

  lemma KindOf(name: string, prefix: string)
    ensures !HasPrefix(name, prefix) ==> !TooLarge(name, prefix) && !Negative(name, prefix)
    ensures HasPrefix(name, prefix) ==>
              var n := Atoi.Parsed(name[|prefix|..]);
              NumberOf(name, prefix) == n && (TooLarge(name, prefix) <==> n >= LIMIT) && (Negative(name, prefix) <==> n < 0)
  {
  }

  /** The byte and the bit that C computes for a negative number: the byte lies
      before the bitmap from -8 down, the shift count is negative unless the number
      is a multiple of 8, and one of the two is the case. */
  lemma NegativeBit(n: int)
    requires n < 0
    ensures TruncDiv(n, 8) < 0 <==> n <= -8
    ensures TruncRem(n, 8) < 0 <==> n % 8 != 0
    ensures TruncDiv(n, 8) < 0 || TruncRem(n, 8) < 0
  {
  }

  /** hd-1 behind the prefix hd: a byte of the bitmap, with a shift by -1. */
  lemma MinusOne()
    ensures HasPrefix("hd-1", "hd") && NumberOf("hd-1", "hd") == -1
    ensures TruncDiv(-1, 8) == 0 && TruncRem(-1, 8) == -1
  {
    assert "hd-1"[2..] == "-1" && "hd-1"[..2] == "hd" && "-1"[1..] == "1" && "1"[..0] == "";
    assert Atoi.Unsigned("-1") == "1";
    assert Atoi.Fold("1") == -1;
  }

  /** Some device has too large a number, and none before it a negative one. */
  ghost predicate Halts(devices: seq<Device>, prefix: string) {
    exists k :: 0 <= k < |devices| && TooLarge(devices[k].name, prefix)
                && forall j :: 0 <= j < k ==> !Negative(devices[j].name, prefix)
  }

  /** Some device has a negative number, and none before it too large a one. */
  ghost predicate Escapes(devices: seq<Device>, prefix: string) {
    exists k :: 0 <= k < |devices| && Negative(devices[k].name, prefix)
                && forall j :: 0 <= j < k ==> !TooLarge(devices[j].name, prefix)
  }

  /** The byte and bit of the first negative number. */
  ghost predicate EscapesAt(devices: seq<Device>, prefix: string, index: int, shift: int) {
    exists k :: 0 <= k < |devices| && Negative(devices[k].name, prefix)
                && index == TruncDiv(NumberOf(devices[k].name, prefix), 8)
                && shift == TruncRem(NumberOf(devices[k].name, prefix), 8)
                && forall j :: 0 <= j < k ==> !Negative(devices[j].name, prefix)
  }

  ghost predicate InRange(devices: seq<Device>, prefix: string) {
    forall k :: 0 <= k < |devices| ==> !TooLarge(devices[k].name, prefix) && !Negative(devices[k].name, prefix)
  }

  /** Without negative numbers the search halts exactly when some number is too
      large. */
  lemma HaltsExactly(devices: seq<Device>, prefix: string)
    requires forall k :: 0 <= k < |devices| ==> !Negative(devices[k].name, prefix)
    ensures Halts(devices, prefix) <==> exists k :: 0 <= k < |devices| && TooLarge(devices[k].name, prefix)
  {
  }

  /** The names that the disk and partition drivers give out: with the first
      partition of the first disk registered, the search for the number of a next
      disk halts, while that for a next partition does not. */
  lemma PartitionHalts(devices: seq<Device>)
    requires |devices| == 2 && devices[0].name == "hd0" && devices[1].name == "hd0p0"
    ensures Halts(devices, "hd") && InRange(devices, "hd0p")
  {
    PartitionNumbers();
    hide NumberOf, HasPrefix;
    assert TooLarge(devices[1].name, "hd") && !Negative(devices[0].name, "hd");
  }

  lemma PartitionNumbers()
    ensures HasPrefix("hd0", "hd") && NumberOf("hd0", "hd") == 0 && !HasPrefix("hd0", "hd0p")
    ensures HasPrefix("hd0p0", "hd") && NumberOf("hd0p0", "hd") == 640
    ensures HasPrefix("hd0p0", "hd0p") && NumberOf("hd0p0", "hd0p") == 0
  {
    assert "hd0"[2..] == "0" && "hd0p0"[2..] == "0p0" && "hd0p0"[4..] == "0";
    assert "hd0"[..2] == "hd" && "hd0p0"[..2] == "hd" && "hd0p0"[..4] == "hd0p";
    FoldPartition();
    assert Atoi.Unsigned("0") == "0" && Atoi.Unsigned("0p0") == "0p0";
    hide Atoi.Fold;
  }

  lemma FoldPartition()
    ensures Atoi.Fold("0") == 0 && Atoi.Fold("0p0") == -640
  {
    assert "0p0"[..2] == "0p" && "0p"[..1] == "0" && "0"[..0] == "";
    assert Atoi.Fold("0") == 0;
    assert Atoi.Fold("0p") == -64;
  }

  /** The numbers in use. */
  ghost function Used(devices: seq<Device>, prefix: string): set<int> {
    set d | d in devices && HasPrefix(d.name, prefix) :: NumberOf(d.name, prefix)
  }

  // ---- the bitmap

  function Mask(k: nat): bv8
    requires k < 8
  {
    1 << k
  }

  /** Setting one bit of a byte sets no other. */
  lemma MaskBits(b: bv8, j: nat, k: nat)
    requires j < 8 && k < 8
    ensures (b | Mask(k)) & Mask(j) != 0 <==> b & Mask(j) != 0 || j == k
  {
    if {
      case k == 0 => MaskBit(b, j, 1, 0);
      case k == 1 => MaskBit(b, j, 2, 1);
      case k == 2 => MaskBit(b, j, 4, 2);
      case k == 3 => MaskBit(b, j, 8, 3);
      case k == 4 => MaskBit(b, j, 16, 4);
      case k == 5 => MaskBit(b, j, 32, 5);
      case k == 6 => MaskBit(b, j, 64, 6);
      case k == 7 => MaskBit(b, j, 128, 7);
    }
  }

  lemma MaskBit(b: bv8, j: nat, m: bv8, k: nat)
    requires j < 8 && k < 8 && m == Mask(k)
    ensures (b | m) & Mask(j) != 0 <==> b & Mask(j) != 0 || j == k
  {
    if {
      case j == 0 =>
      case j == 1 =>
      case j == 2 =>
      case j == 3 =>
      case j == 4 =>
      case j == 5 =>
      case j == 6 =>
      case j == 7 =>
    }
  }

  predicate Bit(bitmap: seq<bv8>, n: nat)
    requires n / 8 < |bitmap|
  {
    bitmap[n / 8] & Mask(n % 8) != 0
  }

  /** The bitmap agrees with the set. */
  ghost predicate Marks(bitmap: seq<bv8>, used: set<int>) {
    |bitmap| == 64 && forall n: nat :: n < LIMIT ==> (Bit(bitmap, n) <==> n in used)
  }

  lemma MarkOne(bitmap: seq<bv8>, used: set<int>, n: nat)
    requires Marks(bitmap, used) && n < LIMIT
    ensures Marks(bitmap[n / 8 := bitmap[n / 8] | Mask(n % 8)], used + {n})
  {
    var b := bitmap[n / 8 := bitmap[n / 8] | Mask(n % 8)];
    forall m: nat | m < LIMIT
      ensures Bit(b, m) <==> m in used + {n}
    {
      assert Bit(bitmap, m) <==> m in used;
      if m / 8 == n / 8 {
        MaskBits(bitmap[n / 8], m % 8, n % 8);
      }
    }
  }

  lemma MarkNone(bitmap: seq<bv8>)
    requires |bitmap| == 64 && forall i :: 0 <= i < 64 ==> bitmap[i] == 0
    ensures Marks(bitmap, {})
  {
    forall n: nat | n < LIMIT
      ensures !Bit(bitmap, n)
    {
      assert bitmap[n / 8] == 0;
    }
  }

  lemma UsedNext(devices: seq<Device>, k: nat, prefix: string)
    requires k < |devices|
    ensures var d := devices[k];
            Used(devices[..k + 1], prefix) ==
            Used(devices[..k], prefix) + if HasPrefix(d.name, prefix) then {NumberOf(d.name, prefix)} else {}
  {
    assert devices[..k + 1] == devices[..k] + [devices[k]];
  }

  /** device_get_first_available_suffix: the least number not in use, if the
      numbers of all devices with the prefix are in range. */
  method FirstAvailable(devices: seq<Device>, prefix: string) returns (r: Result)
    ensures r.Halted? <==> Halts(devices, prefix)
    ensures r.Undefined? <==> Escapes(devices, prefix)
    ensures r.Undefined? ==> EscapesAt(devices, prefix, r.index, r.shift)
    ensures r.Available? <==> InRange(devices, prefix)
    ensures r.Available? ==> r.n <= LIMIT && r.n !in Used(devices, prefix)
    ensures r.Available? ==> forall n :: 0 <= n < r.n ==> n in Used(devices, prefix)
  {
    hide NumberOf, Bit, Mask, Used, TooLarge, Negative, EscapesAt;
    var bitmap, end := FillBitmap(devices, prefix);
    if !end.Available? {
      return end;
    }
    InRangeUsed(devices, prefix);
    var n := 0;
    while n < LIMIT
      invariant n <= LIMIT && forall m :: 0 <= m < n ==> m in Used(devices, prefix)
    {
      if !Bit(bitmap[..], n) {
        return Available(n);
      }
      n := n + 1;
    }
    return Available(LIMIT);
  }

  lemma InRangeUsed(devices: seq<Device>, prefix: string)
    requires InRange(devices, prefix)
    ensures LIMIT !in Used(devices, prefix)
  {
    hide NumberOf;
  }

  /** The first half of device_get_first_available_suffix. */
  method FillBitmap(devices: seq<Device>, prefix: string) returns (bitmap: array<bv8>, end: Result)
    ensures end.Halted? <==> Halts(devices, prefix)
    ensures end.Undefined? <==> Escapes(devices, prefix)
    ensures end.Undefined? ==> EscapesAt(devices, prefix, end.index, end.shift)
    ensures end.Available? <==> InRange(devices, prefix)
    ensures fresh(bitmap) && (end.Available? ==> Marks(bitmap[..], Used(devices, prefix)))
  {
    bitmap := new bv8[64](_ => 0);
    MarkNone(bitmap[..]);
    assert Used(devices[..0], prefix) == {};
    hide Used, Marks, Mask, Halts, Escapes, EscapesAt, InRange, TooLarge, Negative, NumberOf;
    var k := 0;
    while k < |devices|
      invariant 0 <= k <= |devices| && bitmap.Length == 64
      invariant Marks(bitmap[..], Used(devices[..k], prefix))
      invariant forall j :: 0 <= j < k ==> !TooLarge(devices[j].name, prefix) && !Negative(devices[j].name, prefix)
    {
      var d := devices[k];
      UsedNext(devices, k, prefix);
      KindOf(d.name, prefix);
      if HasPrefix(d.name, prefix) {
        var n := Atoi.ParseInt(d.name[|prefix|..]);
        if n >= LIMIT {
          EndsAt(devices, prefix, k);
          return bitmap, Halted;
        }
        var index, shift := TruncDiv(n, 8), TruncRem(n, 8);
        if index < 0 || shift < 0 {
          EndsAt(devices, prefix, k);
          return bitmap, Undefined(index, shift);
        }
        if n < 0 {
          NegativeBit(n);
          assert false;
        }
        MarkOne(bitmap[..], Used(devices[..k], prefix), n);
        ghost var was := bitmap[..];
        bitmap[index] := bitmap[index] | Mask(shift);
        assert bitmap[..] == was[n / 8 := was[n / 8] | Mask(n % 8)];
      }
      k := k + 1;
    }
    assert devices[..k] == devices;
    NeverEnds(devices, prefix);
    end := Available(0);
  }

  /** The first number out of range decides how the search ends. */
  lemma EndsAt(devices: seq<Device>, prefix: string, k: nat)
    requires k < |devices|
    requires forall j :: 0 <= j < k ==> !TooLarge(devices[j].name, prefix) && !Negative(devices[j].name, prefix)
    requires TooLarge(devices[k].name, prefix) || Negative(devices[k].name, prefix)
    ensures Halts(devices, prefix) <==> TooLarge(devices[k].name, prefix)
    ensures Escapes(devices, prefix) <==> Negative(devices[k].name, prefix)
    ensures Negative(devices[k].name, prefix) ==>
              var n := NumberOf(devices[k].name, prefix);
              EscapesAt(devices, prefix, TruncDiv(n, 8), TruncRem(n, 8))
    ensures !InRange(devices, prefix)
  {
  }

  lemma NeverEnds(devices: seq<Device>, prefix: string)
    requires forall k :: 0 <= k < |devices| ==> !TooLarge(devices[k].name, prefix) && !Negative(devices[k].name, prefix)
    ensures InRange(devices, prefix) && !Halts(devices, prefix) && !Escapes(devices, prefix)
  {
  }

  /** A device named after the number that was found has a name of its own. */
  lemma FreshName(devices: seq<Device>, prefix: string, r: nat)
    requires r < LIMIT && r !in Used(devices, prefix)
    ensures forall d | d in devices :: d.name != prefix + Numeral(r, 10, false)
  {
    var name := prefix + Numeral(r, 10, false);
    assert name[..|prefix|] == prefix && name[|prefix|..] == Numeral(r, 10, false);
    Atoi.ReadNumeral(r, false);
    Atoi.ParsedDecimal(Numeral(r, 10, false));
  }
}
