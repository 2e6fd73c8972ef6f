/** The # flag of the formatter: a prefix that says the base, and when it costs
    digits. */
module HashPrefix {
  import opened Words
  import opened Buffers
  import opened Digits
  import opened Format
  import opened FormatC99
  import PrefixScan
  import Strtoul

  /** The prefixes of C99, 7.19.6.1, and 0b. */
  function Prefix(base: nat, upper: bool): string {
    if base == 16 then (if upper then "0X" else "0x") else if base == 8 then "0" else "0b"
  }

  predicate HasPrefix(base: nat) {
    base == 2 || base == 8 || base == 16
  }

  /** How many characters the prefix takes from a number as wide as its field. */
  function Cut(digits: string, base: nat, width: nat): (k: nat)
    ensures k <= |digits|
  {
    if |digits| == 0 || |digits| != width then 0 else if |digits| > 1 && base == 16 then 2 else 1
  }

  /** As much of the prefix as the digit buffer still takes. */
  function Fitting(prefix: string, len: nat): string {
    prefix[|prefix| - Min(|prefix|, Max(NTOA_BUFFER_SIZE - len, 0))..]
  }

  /** Zeros and digits with their prefix, in reading order. */
  function HashText(digits: string, base: nat, width: nat, upper: bool): string {
    var rest := digits[Cut(digits, base, width)..];
    Fitting(Prefix(base, upper), |rest|) + rest
  }

  lemma AddReversed(b: string, c: char)
    ensures Reverse(Add(b, c)) == (if |b| < NTOA_BUFFER_SIZE then [c] else "") + Reverse(b)
  {
  }

  /** What is added to the reversed digits comes in front of them. */
  lemma PrefixReversed(b: string, base: nat, upper: bool)
    requires HasPrefix(base)
    ensures var p := if base == 16 then Add(b, if upper then 'X' else 'x') else if base == 2 then Add(b, 'b') else b;
            Reverse(Add(p, '0')) == Fitting(Prefix(base, upper), |b|) + Reverse(b)
  {
    var p := if base == 16 then Add(b, if upper then 'X' else 'x') else if base == 2 then Add(b, 'b') else b;
    AddReversed(p, '0');
    if base != 8 {
      AddReversed(b, if base == 2 then 'b' else if upper then 'X' else 'x');
    }
    hide Reverse;
  }

  lemma HashedReading(buf: string, base: nat, width: nat, flags: Flags)
    requires HasPrefix(base) && flags.hash && !flags.precision
    ensures Reverse(Hashed(buf, base, 0, width, flags)) == HashText(Reverse(buf), base, width, flags.upper)
  {
    var k := Cut(Reverse(buf), base, width);
    hide Reverse, Add, Fitting, Prefix, Min, Max;
    CutReversed(buf, k);
    PrefixReversed(buf[..|buf| - k], base, flags.upper);
    assert k == 0 ==> buf[..|buf|] == buf;
  }

  lemma CutReversed(buf: string, k: nat)
    requires k <= |buf|
    ensures Reverse(buf)[k..] == Reverse(buf[..|buf| - k])
  {
  }

  /** The text of the code, put in reading order. */
  lemma HashCode(value: U32, base: nat, width: nat, flags: Flags)
    requires HasPrefix(base) && flags.hash && !flags.precision && !flags.plus && !flags.space && value > 0
    ensures NtoaLongText(value, false, base, 0, width, flags)
         == InField(HashText(CodeDigits(Numeral(value, base, flags.upper), 0, width, flags), base, width, flags.upper),
                    false, width, flags)
  {
    hide CodeDigits, OutRevText, Signed, InField, Reverse, ZeroPadded, Numeral, Hashed, HashText;
    var d := Numeral(value, base, flags.upper);
    var digits := ZeroPadded(Reverse(d), 0, width, flags);
    ZeroPaddedReversed(d, 0, width, flags);
    HashedReading(digits, base, width, flags);
    OutRevReading(Hashed(digits, base, 0, width, flags), false, width, flags);
  }

  /** Where the code conforms: for n digits, and a field of that width. */
  predicate HashConforms(n: nat, base: nat, width: nat, flags: Flags) {
    var p := |Prefix(base, flags.upper)|;
    && n + p <= NTOA_BUFFER_SIZE
    && if flags.left || !flags.zeroPad then n != width
       else width <= NTOA_BUFFER_SIZE && (n > width || (if base == 2 then n + 1 == width else n + p <= width))
  }

  lemma PrefixIs(base: nat, upper: bool)
    requires HasPrefix(base)
    ensures var p := Prefix(base, upper); |p| == (if base == 8 then 1 else 2) && p[0] == '0' && (|p| == 2 ==> p[1] != '0')
  {
  }

  lemma Fits(prefix: string, len: nat)
    ensures len + |prefix| <= NTOA_BUFFER_SIZE ==> Fitting(prefix, len) == prefix
    ensures len <= NTOA_BUFFER_SIZE ==> |Fitting(prefix, len)| == Min(|prefix|, NTOA_BUFFER_SIZE - len)
    ensures len >= NTOA_BUFFER_SIZE ==> Fitting(prefix, len) == ""
    ensures len == NTOA_BUFFER_SIZE - 1 && |prefix| == 2 ==> Fitting(prefix, len) == [prefix[1]]
  {
  }

  /** A text in a field of spaces on the one side. */
  function Aligned(text: string, width: nat, left: bool): (r: string)
    ensures |r| == Max(|text|, width)
  {
    if left then text + Repeat(' ', width - |text|) else Repeat(' ', width - |text|) + text
  }

  /** Spaces fill the field. */
  lemma SpacesField(d: string, p: string, t: string, width: nat, flags: Flags)
    requires (flags.left || !flags.zeroPad) && Sign(false, flags) == ""
    ensures C99Field(d, p, 0, width, flags) == Aligned(p + d, width, flags.left)
    ensures InField(t, false, width, flags) == Aligned(t, width, flags.left)
  {
    NoZeros(d);
    SpacesCode(t, width, flags);
    hide InField, Sign;
    var blanks := Repeat(' ', width - |p| - |d|);
    hide Repeat;
    assert p + d + blanks == (p + d) + blanks && blanks + p + d == blanks + (p + d);
  }

  lemma NoZeros(d: string)
    ensures Repeat('0', 0 - |d|) + d == d
  {
  }

  lemma SpacesCode(t: string, width: nat, flags: Flags)
    requires (flags.left || !flags.zeroPad) && Sign(false, flags) == ""
    ensures InField(t, false, width, flags) == Aligned(t, width, flags.left)
  {
    hide Repeat, Sign;
    var blanks := Repeat(' ', width - |t|);
    assert "" + ("" + t) + blanks == t + blanks && blanks + ("" + t) + "" == blanks + t;
  }

  /** A full digit buffer: some of the prefix is missing. */
  lemma NoRoom(d: string, p: string, width: nat, left: bool)
    requires |d| <= NTOA_BUFFER_SIZE < |d| + |p| && |p| <= 2 && p[0] == '0' && (|p| == 2 ==> p[1] != '0')
    requires d != "" && d[0] != '0'
    ensures Aligned(Fitting(p, |d|) + d, width, left) != Aligned(p + d, width, left)
  {
    var t := Fitting(p, |d|) + d;
    Fits(p, |d|);
    assert t[0] == if |d| < NTOA_BUFFER_SIZE then p[1] else d[0];
    assert |t| < |p| + |d|;
    hide Fitting;
    Shorter(t, p + d, width, left);
  }

  lemma Shorter(t: string, u: string, width: nat, left: bool)
    requires 0 < |t| < |u| && t[0] != u[0] == '0'
    ensures Aligned(t, width, left) != Aligned(u, width, left)
  {
    var a, b := Aligned(t, width, left), Aligned(u, width, left);
    if |a| == |b| {
      var at := if left then 0 else width - |u|;
      assert b[at] == u[0] && a[at] == if left then t[0] else ' ';
    }
  }

  /** k digits cut, and the prefix as far as it fits. */
  lemma SpacesText(d: string, p: string, k: nat, width: nat, left: bool)
    requires d != "" && d[0] != '0' && |d| <= NTOA_BUFFER_SIZE && k <= |d| && (k == 0 <==> |d| != width)
    requires 1 <= |p| <= 2 && p[0] == '0' && (|p| == 2 ==> p[1] != '0')
    ensures Aligned(Fitting(p, |d| - k) + d[k..], width, left) == Aligned(p + d, width, left)
            <==> |d| != width && |d| + |p| <= NTOA_BUFFER_SIZE
  {
    hide Fitting, Aligned;
    Fits(p, |d| - k);
    if k > 0 {
      assert |Fitting(p, |d| - k) + d[k..]| < |p + d|;
    } else {
      assert d[0..] == d;
      if |d| + |p| > NTOA_BUFFER_SIZE {
        NoRoom(d, p, width, left);
      }
    }
  }

  /** Spaces, or nothing, fill the field. */
  lemma SpacesCase(d: string, base: nat, width: nat, flags: Flags)
    requires HasPrefix(base) && (flags.left || !flags.zeroPad) && Sign(false, flags) == ""
    requires d != "" && d[0] != '0' && |d| <= NTOA_BUFFER_SIZE
    ensures var p := Prefix(base, flags.upper);
            (InField(HashText(d, base, width, flags.upper), false, width, flags) == C99Field(d, p, 0, width, flags))
            <==> HashConforms(|d|, base, width, flags)
  {
    var p, k := Prefix(base, flags.upper), Cut(d, base, width);
    PrefixIs(base, flags.upper);
    SpacesField(d, p, HashText(d, base, width, flags.upper), width, flags);
    hide InField, C99Field, Prefix, Sign, Fitting, Aligned;
    SpacesText(d, p, k, width, flags.left);
  }

  /** Zeros fill the field, up to 32 characters. */
  lemma ZerosField(d: string, p: string, t: string, width: nat, flags: Flags)
    requires !flags.left && flags.zeroPad && Sign(false, flags) == "" && d != ""
    ensures C99Field(d, p, 0, width, flags) == p + Repeat('0', width - |p| - |d|) + d
    ensures InField(t, false, width, flags) == t
    ensures CodeDigits(d, 0, width, flags) == Repeat('0', Min(width, NTOA_BUFFER_SIZE) - |d|) + d
  {
    NoZeros(d);
    hide Sign;
  }

  /** The digits are wider than the field. */
  lemma NarrowField(d: string, p: string, width: nat)
    requires width < |d| <= NTOA_BUFFER_SIZE && 1 <= |p| <= 2
    ensures (Fitting(p, |d|) + d == p + Repeat('0', width - |p| - |d|) + d) <==> |d| + |p| <= NTOA_BUFFER_SIZE
  {
    Fits(p, |d|);
    hide Fitting;
    assert Repeat('0', width - |p| - |d|) == "";
  }

  /** k characters cut and the prefix as far as it fits, against the standard. */
  ghost predicate CutMatches(d: string, p: string, k: nat, width: nat)
    requires |d| <= width && k <= width
  {
    Fitting(p, width - k) + (Repeat('0', width - |d|) + d)[k..] == p + Repeat('0', width - |p| - |d|) + d
  }

  /** A digit is among the characters cut. */
  lemma DigitsCut(d: string, p: string, k: nat, width: nat)
    requires |d| <= width <= NTOA_BUFFER_SIZE && 1 <= k <= width && k <= |p| <= 2 && |d| + k > width
    ensures !CutMatches(d, p, k, width)
  {
    Fits(p, width - k);
    hide Fitting;
    var code := Fitting(p, width - k) + (Repeat('0', width - |d|) + d)[k..];
    assert |code| <= width - k + |p| < |d| + |p|;
    assert |p + Repeat('0', width - |p| - |d|) + d| >= |d| + |p|;
  }

  /** Only zeros are cut. */
  lemma ZerosCut(d: string, p: string, k: nat, width: nat)
    requires 1 <= k && |d| + k <= width <= NTOA_BUFFER_SIZE && k <= |p| <= 2
    requires p[0] == '0' && (|p| == 2 ==> p[1] != '0')
    ensures CutMatches(d, p, k, width) <==> k == |p| || (|d| + 1 == width && width < NTOA_BUFFER_SIZE)
  {
    hide Repeat, Fitting;
    Fits(p, width - k);
    ZerosSlice(d, k, width);
    SameZeros(width - k - |d|, width - |p| - |d|);
    Matches(Fitting(p, width - k), p, Repeat('0', width - k - |d|), Repeat('0', width - |p| - |d|), d);
  }

  lemma Matches(q: string, p: string, zeros: string, fill: string, d: string)
    requires p != "" && (q == p || (q != "" && q[0] != p[0])) && (|zeros| == |fill| ==> zeros == fill)
    ensures q + (zeros + d) == p + fill + d <==> q == p && |zeros| == |fill|
  {
    if q == p {
      SamePrefix(p, zeros, fill, d);
    } else {
      FirstDiffers(q, zeros + d, p, fill + d);
      assert p + (fill + d) == p + fill + d;
    }
  }

  lemma FirstDiffers(a: string, b: string, c: string, d: string)
    requires a != "" && c != "" && a[0] != c[0]
    ensures a + b != c + d
  {
    assert (a + b)[0] == a[0] && (c + d)[0] == c[0];
  }

  lemma ZerosSlice(d: string, k: nat, width: nat)
    requires |d| + k <= width
    ensures (Repeat('0', width - |d|) + d)[k..] == Repeat('0', width - k - |d|) + d
  {
  }

  lemma SameZeros(n: int, m: int)
    ensures |Repeat('0', n)| == |Repeat('0', m)| ==> Repeat('0', n) == Repeat('0', m)
  {
  }

  lemma SamePrefix(p: string, s: string, t: string, d: string)
    requires |s| == |t| ==> s == t
    ensures p + (s + d) == p + t + d <==> |s| == |t|
  {
    assert |p + (s + d)| == |p| + |s| + |d| && |p + t + d| == |p| + |t| + |d|;
  }

  /** The zeros fill the digit buffer up to the width, and k of them, or digits,
      give way. */
  lemma CutField(d: string, p: string, k: nat, width: nat)
    requires |d| <= width <= NTOA_BUFFER_SIZE && 1 <= k <= width && k <= |p| <= 2
    requires p[0] == '0' && (|p| == 2 ==> p[1] != '0')
    ensures CutMatches(d, p, k, width)
            <==> if k == |p| then |d| + |p| <= width else |d| + 1 == width < NTOA_BUFFER_SIZE
  {
    hide CutMatches;
    if |d| + k <= width {
      ZerosCut(d, p, k, width);
    } else {
      DigitsCut(d, p, k, width);
    }
  }

  /** A full buffer of zeros and digits in a wider field: no prefix, and too short. */
  lemma WideField(d: string, p: string, digits: string, width: nat)
    requires |digits| == NTOA_BUFFER_SIZE < width && |d| <= NTOA_BUFFER_SIZE
    ensures Fitting(p, |digits|) + digits != p + Repeat('0', width - |p| - |d|) + d
  {
    Fits(p, |digits|);
    hide Fitting;
    assert |p + Repeat('0', width - |p| - |d|) + d| >= width;
  }

  /** Zeros fill the field. */
  lemma ZerosCase(d: string, base: nat, width: nat, flags: Flags)
    requires HasPrefix(base) && !flags.left && flags.zeroPad && Sign(false, flags) == ""
    requires d != "" && |d| <= NTOA_BUFFER_SIZE
    ensures var p := Prefix(base, flags.upper);
            (InField(HashText(CodeDigits(d, 0, width, flags), base, width, flags.upper), false, width, flags)
             == C99Field(d, p, 0, width, flags))
            <==> HashConforms(|d|, base, width, flags)
  {
    hide InField, C99Field, Prefix, Sign, Fitting, Repeat, CodeDigits, CutMatches;
    var p := Prefix(base, flags.upper);
    var digits := Repeat('0', Min(width, NTOA_BUFFER_SIZE) - |d|) + d;
    PrefixIs(base, flags.upper);
    ZerosField(d, p, HashText(digits, base, width, flags.upper), width, flags);
    var k := Cut(digits, base, width);
    if width > NTOA_BUFFER_SIZE {
      assert digits[0..] == digits;
      WideField(d, p, digits, width);
    } else if width < |d| {
      assert digits == d && d[0..] == d;
      NarrowField(d, p, width);
    } else {
      CutField(d, p, k, width);
      CutIs(d, p, digits, k, width);
    }
  }

  lemma CutIs(d: string, p: string, digits: string, k: nat, width: nat)
    requires |d| <= width && k <= width && digits == Repeat('0', width - |d|) + d
    ensures Fitting(p, width - k) + digits[k..] == p + Repeat('0', width - |p| - |d|) + d <==> CutMatches(d, p, k, width)
  {
  }

  /** With # and no precision, a number other than 0 gets the prefix of its base, in
      the field that C99 asks for, exactly when it HashConforms. */
  lemma HashExactly(value: U32, base: nat, width: nat, flags: Flags)
    requires HasPrefix(base) && flags.hash && !flags.precision && !flags.plus && !flags.space && value > 0
    ensures var d := Numeral(value, base, flags.upper);
            (NtoaLongText(value, false, base, 0, width, flags)
             == C99Field(d, Prefix(base, flags.upper), 0, width, flags))
            <==> HashConforms(|d|, base, width, flags)
  {
    hide NtoaLongText, InField, C99Field, Prefix, HashText, CodeDigits, Numeral, HashConforms;
    var d := Numeral(value, base, flags.upper);
    HashCode(value, base, width, flags);
    DigitsOfWord(value, base);
    NumeralLength(value, base, flags.upper);
    NumeralReads(value, base, flags.upper);
    if flags.left || !flags.zeroPad {
      assert CodeDigits(d, 0, width, flags) == d by {
        NoZerosInCode(d, width, flags);
      }
      SpacesCase(d, base, width, flags);
    } else {
      ZerosCase(d, base, width, flags);
    }
  }

  lemma NoZerosInCode(d: string, width: nat, flags: Flags)
    requires flags.left || !flags.zeroPad
    ensures CodeDigits(d, 0, width, flags) == d
  {
    NoZeros(d);
  }

  lemma NumeralLength(value: U32, base: nat, upper: bool)
    requires 2 <= base <= 36
    ensures |Numeral(value, base, upper)| == |ToDigits(value, base)|
  {
  }

  /** 0 has no prefix. */
  lemma HashZero(base: nat, width: nat, flags: Flags)
    requires 2 <= base <= 36
    ensures NtoaLongText(0, false, base, 0, width, flags)
         == NtoaLongText(0, false, base, 0, width, flags.(hash := false))
  {
  }

  /** 0x1234 with %#4x: the first two digits are missing. */
  lemma LostDigits(flags: Flags)
    requires flags == NO_FLAGS.(hash := true)
    ensures NtoaLongText(0x1234, false, 16, 0, 4, flags) == "0x34"
  {
    hide NtoaLongText, Numeral;
    FourDigits(0x1234, 16);
    SpacedText(0x1234, 16, 4, flags);
    assert "1234"[2..] == "34" && "0x" + "34" == "0x34";
  }

  lemma FourDigits(n: nat, base: nat)
    requires n == 0x1234 && base == 16
    ensures Numeral(n, base, false) == "1234"
  {
    ToDigitsStep(0x1234, base);
    ToDigitsStep(0x123, base);
    ToDigitsStep(0x12, base);
    ToDigitsStep(0x1, base);
    hide ToDigits;
    assert ToDigits(n, base) == [1, 2, 3, 4];
  }

  // ---- reading it back

  /** The code's text with spaces before it, or none. */
  lemma SpacedText(value: U32, base: nat, width: nat, flags: Flags)
    requires (base == 8 || base == 16) && flags.hash && !flags.precision && !flags.plus && !flags.space && value > 0
    requires !flags.left && !flags.zeroPad
    ensures var d := Numeral(value, base, flags.upper);
            NtoaLongText(value, false, base, 0, width, flags)
            == Aligned(Prefix(base, flags.upper) + d[Cut(d, base, width)..], width, false)
  {
    hide NtoaLongText, InField, Prefix, Fitting, CodeDigits, Numeral, Aligned;
    var d := Numeral(value, base, flags.upper);
    HashCode(value, base, width, flags);
    NoZerosInCode(d, width, flags);
    SpacesCode(HashText(d, base, width, flags.upper), width, flags);
    DigitsOfWord(value, base);
    NumeralLength(value, base, flags.upper);
    PrefixIs(base, flags.upper);
    Fits(Prefix(base, flags.upper), |d| - Cut(d, base, width));
  }

  /** strtoul, in base 0, reads digits behind a prefix. */
  lemma ReadPrefixed(n: nat, base: nat, upper: bool, digits: string)
    requires base == 8 || base == 16
    requires forall i :: 0 <= i < |digits| ==> DigitOf(digits[i]) < base
    requires Value(DigitsOf(digits), base) < U32_MODULUS
    ensures Strtoul.StrtoulValue(PrefixScan.Blank(n) + "" + (Prefix(base, upper) + digits), 0)
         == Value(DigitsOf(digits), base)
  {
    hide Strtoul.StrtoulValue, Strtoul.SubjectOf, Value, PrefixScan.Blank;
    var rest := Prefix(base, upper) + digits;
    var text := PrefixScan.Blank(n) + "" + rest;
    PrefixScan.SubjectAfter(n, "", rest, 0);
    if base == 16 {
      assert text[n + 2..] == text[n..][2..] == digits;
      PrefixScan.ReadsTo(text, 0, Strtoul.Subject(n + 2, 16, false), digits, "", Value(DigitsOf(digits), 16));
    } else {
      PrefixScan.LeadingZero(digits, 8);
      assert |digits| > 0 ==> rest[1] == digits[0];
      PrefixScan.ReadsTo(text, 0, Strtoul.Subject(n, 8, false), rest, "", Value(DigitsOf(digits), 8));
    }
  }

  /** Digits that are dropped from the front are missing in the value. */
  lemma {:induction false} FrontCounts(a: seq<nat>, b: seq<nat>, base: nat)
    requires a != [] && a[0] > 0 && base >= 2
    ensures Value(a + b, base) > Value(b, base)
    decreases |a| + |b|
  {
    if b != [] {
      var c := b[..|b| - 1];
      FrontCounts(a, c, base);
      assert (a + b)[..|a + b| - 1] == a + c;
      MulMono(Value(c, base) + 1, Value(a + c, base), base);
      Distribute(Value(c, base), 1, base);
    } else if |a| > 1 {
      FrontCounts(a[..|a| - 1], [], base);
      assert a + b == a && a[..|a| - 1] + [] == a[..|a| - 1];
      MulMono(1, Value(a[..|a| - 1], base), base);
    } else {
      assert a + b == [] + [a[0]];
      ValueAppend([], a[0], base);
    }
  }

  /** What %#x, %#X and %#o write, in a field of any width, strtoul in base 0 reads
      back exactly if the number has not as many digits as the field is wide. */
  lemma HashRoundTrip(value: U32, base: nat, width: nat, flags: Flags)
    requires (base == 8 || base == 16) && flags.hash && !flags.precision && !flags.plus && !flags.space && value > 0
    requires !flags.left && !flags.zeroPad
    ensures Strtoul.StrtoulValue(NtoaLongText(value, false, base, 0, width, flags), 0) == value
            <==> |Numeral(value, base, flags.upper)| != width
  {
    hide NtoaLongText, Strtoul.StrtoulValue, Prefix, Value, Numeral, DigitOf;
    var d := Numeral(value, base, flags.upper);
    NumeralReads(value, base, flags.upper);
    SpacedText(value, base, width, flags);
    var k := Cut(d, base, width);
    var p := Prefix(base, flags.upper);
    var rest := p + d[k..];
    var n := Max(width - |rest|, 0);
    assert Aligned(rest, width, false) == PrefixScan.Blank(n) + "" + rest;
    DigitsBehind(d, k, base, value);
    ReadPrefixed(n, base, flags.upper, d[k..]);
  }

  lemma DigitsBehind(d: string, k: nat, base: nat, value: U32)
    requires k <= |d| && d != "" && d[0] != '0' && base >= 2 && Value(DigitsOf(d), base) == value
    ensures Value(DigitsOf(d[k..]), base) <= value && (Value(DigitsOf(d[k..]), base) == value <==> k == 0)
  {
    if k > 0 {
      assert DigitsOf(d) == DigitsOf(d[..k]) + DigitsOf(d[k..]);
      assert DigitOf(d[0]) != 0;
      FrontCounts(DigitsOf(d[..k]), DigitsOf(d[k..]), base);
    } else {
      assert d[0..] == d;
    }
  }
}
