/** kern/printf.c: vsnprintf into a buffer of limited size. */
module Printf {
  import opened Words
  import opened Buffers
  import opened Digits
  import opened Format

  /** The part of the output that fits. */
  function Clip(text: string, maxlen: nat): (r: string)
    ensures |r| == Min(|text|, maxlen) && r == text[..|r|]
  {
    text[..Min(|text|, maxlen)]
  }

  /** The output function with its arguments: _out_buffer, or _out_null when the
      buffer is NULL. */
  class Output {
    const buffer: array?<char>
    const maxlen: U32
    var idx: nat

    /** Everything output so far, fitting or not, and how much there will be. */
    ghost var text: string
    ghost const total: nat
    /** The buffer before the first output. */
    ghost const was: seq<char>

    ghost predicate Valid()
      reads this, buffer
    {
      && idx == |text| <= total
      && (buffer != null ==>
            && |was| == buffer.Length && Min(maxlen, total) <= buffer.Length
            && buffer[..] == Patch(was, 0, Clip(text, maxlen)))
    }

    constructor (buffer: array?<char>, maxlen: U32, ghost total: nat)
      requires buffer != null ==> Min(maxlen, total) <= buffer.Length
      ensures Valid() && text == "" && idx == 0
      ensures this.buffer == buffer && this.maxlen == maxlen && this.total == total
      ensures buffer != null ==> was == buffer[..]
    {
      this.buffer, this.maxlen, this.total := buffer, maxlen, total;
      this.idx, this.text := 0, "";
      this.was := if buffer == null then [] else buffer[..];
      new;
      if buffer != null {
        PatchNothing(buffer[..], 0);
      }
    }

    /** out(c, buffer, idx++, maxlen). */
    method Put(c: char)
      requires Valid() && idx < total
      modifies this`idx, this`text, buffer
      ensures Valid() && text == old(text) + [c]
    {
      if buffer != null && idx < maxlen {
        ghost var shown := Clip(text, maxlen);
        assert shown == text;
        buffer[idx] := c;
        assert buffer[..] == Patch(was, 0, text + [c]);
      }
      idx := idx + 1;
      text := text + [c];
    }

    /** n more of the same character. */
    method PutMany(c: char, n: int)
      requires Valid() && idx + Max(n, 0) <= total
      modifies this`idx, this`text, buffer
      ensures Valid() && text == old(text) + Repeat(c, n)
    {
      hide Patch;
      var i := 0;
      while i < n
        invariant 0 <= i <= Max(n, 0) && Valid() && text == old(text) + Repeat(c, i)
      {
        Put(c);
        assert Repeat(c, i + 1) == Repeat(c, i) + [c];
        i := i + 1;
      }
    }

    /** _out_rev. */
    method OutRev(buf: array<char>, len: nat, width: U32, flags: Flags)
      requires Valid() && len <= buf.Length && buf != buffer
      requires idx + |OutRevText(buf[..len], width, flags)| <= total
      modifies this`idx, this`text, buffer
      ensures Valid() && text == old(text) + OutRevText(buf[..len], width, flags)
    {
      hide Patch, Reverse;
      var start := idx;
      if !flags.left && !flags.zeroPad {
        PutMany(' ', width - len);
      }
      PutReversed(buf, len);
      if flags.left {
        PutMany(' ', width - (idx - start));
      }
    }

    /** The middle of _out_rev. */
    method PutReversed(buf: array<char>, len: nat)
      requires Valid() && len <= buf.Length && buf != buffer && idx + len <= total
      modifies this`idx, this`text, buffer
      ensures Valid() && text == old(text) + Reverse(buf[..len])
    {
      hide Patch;
      ghost var before, reversed := text, Reverse(buf[..len]);
      var k := len;
      while k > 0
        invariant 0 <= k <= len && Valid() && buf[..] == old(buf[..])
        invariant text == before + reversed[..len - k]
      {
        k := k - 1;
        Put(buf[k]);
        assert reversed[..len - k] == reversed[..len - k - 1] + [buf[k]];
      }
      assert reversed[..len] == reversed;
    }

    /** _ntoa_format, on the reversed digits buf[..len]. */
    method NtoaFormat(buf: array<char>, len: nat, negative: bool, base: nat, prec: U32, width: U32, flags: Flags)
      requires Valid() && buf.Length == NTOA_BUFFER_SIZE && len <= buf.Length && buf != buffer
      requires idx + |NtoaFormatText(buf[..len], negative, base, prec, width, flags)| <= total
      modifies this`idx, this`text, buffer, buf
      ensures Valid() && text == old(text) + NtoaFormatText(old(buf[..len]), negative, base, prec, width, flags)
    {
      var n, w := Decorate(buf, len, negative, base, prec, width, flags);
      hide OutRevText, Signed, Hashed, ZeroPadded, ZeroWidth;
      OutRev(buf, n, w, flags);
    }

    /** _ntoa_long. */
    method NtoaLong(value: U32, negative: bool, base: nat, prec: U32, width: U32, flags: Flags)
      requires Valid() && 2 <= base <= 36
      requires idx + |NtoaLongText(value, negative, base, prec, width, flags)| <= total
      modifies this`idx, this`text, buffer
      ensures Valid() && text == old(text) + NtoaLongText(value, negative, base, prec, width, flags)
    {
      var f := if value == 0 then flags.(hash := false) else flags;
      ghost var digits := if flags.precision && value == 0 then "" else Numeral(value, base, flags.upper);
      assert NtoaLongText(value, negative, base, prec, width, flags)
          == NtoaFormatText(Reverse(digits), negative, base, prec, width, f);
      hide NtoaLongText, NtoaFormatText, Numeral, Patch;
      var buf := new char[NTOA_BUFFER_SIZE];
      var len := 0;
      if !f.precision || value != 0 {
        len := DigitsInto(buf, value, base, f.upper);
      }
      assert buf[..len] == Reverse(digits);
      NtoaFormat(buf, len, negative, base, prec, width, f);
    }

    /** The integer conversions of _vsnprintf. */
    method PutInteger(word: U32, conv: char, prec: U32, width: U32, flags: Flags)
      requires Valid() && IsInteger(conv)
      requires idx + |IntegerText(word, conv, prec, width, flags)| <= total
      modifies this`idx, this`text, buffer
      ensures Valid() && text == old(text) + IntegerText(word, conv, prec, width, flags)
    {
      hide NtoaLongText, Patch, IntegerFlags, BaseOf, SignedOf, UnsignedOf, Magnitude32;
      var base, f := IntegerSetup(conv, flags);
      if conv == 'i' || conv == 'd' {
        if f.longLong {
        } else {
          var value := SignedOf(word, f);
          NtoaLong(Magnitude32(value), value < 0, base, prec, width, f);
        }
      } else if f.longLong {
      } else {
        NtoaLong(UnsignedOf(word, f), false, base, prec, width, f);
      }
    }

    /** The %c and %s conversions: the text between its pads. */
    method PutText(s: string, width: U32, flags: Flags)
      requires Valid() && idx + |Padded(s, width, flags)| <= total
      modifies this`idx, this`text, buffer
      ensures Valid() && text == old(text) + Padded(s, width, flags)
    {
      hide Patch;
      if !flags.left {
        PutMany(' ', width - |s|);
      }
      PutString(s);
      if flags.left {
        PutMany(' ', width - |s|);
      }
    }

    method PutString(s: string)
      requires Valid() && idx + |s| <= total
      modifies this`idx, this`text, buffer
      ensures Valid() && text == old(text) + s
    {
      hide Patch;
      ghost var before := text;
      var i := 0;
      while i < |s|
        invariant 0 <= i <= |s| && Valid() && text == before + s[..i]
      {
        Put(s[i]);
        assert s[..i + 1] == s[..i] + [s[i]];
        i := i + 1;
      }
      assert s[..|s|] == s;
    }

    /** One conversion. */
    method Convert(d: Directive, conv: char, va: Args) returns (taken: nat)
      requires Valid() && idx + |ConversionText(d, conv, va).0| <= total
      modifies this`idx, this`text, buffer
      ensures Valid() && text == old(text) + ConversionText(d, conv, va).0
      ensures taken == ConversionText(d, conv, va).1
    {
      hide IntegerText, NtoaLongText, Padded, Patch;
      taken := 1;
      if IsInteger(conv) {
        PutInteger(va(d.arg).word, conv, d.precision, d.width, d.flags);
        taken := if d.flags.longLong then 0 else 1;
      } else if conv == 'c' {
        PutText([(va(d.arg).word % 0x100) as char], d.width, d.flags);
      } else if conv == 's' {
        var str := va(d.arg).str;
        PutText(if d.flags.precision then str[..Min(|str|, d.precision)] else str, d.width, d.flags);
      } else if conv == 'p' {
        NtoaLong(va(d.arg).word, false, 16, d.precision, 8, d.flags.(zeroPad := true, upper := true));
      } else {
        Put(conv);
        taken := 0;
      }
    }

    /** One round of the loop of _vsnprintf. */
    method PutPiece(fmt: string, i: nat, va: Args, arg: nat) returns (next: nat, arg': nat)
      requires Valid() && i < |fmt| && idx + |PieceAt(fmt, i, va, arg).text| <= total
      modifies this`idx, this`text, buffer
      ensures Valid() && text == old(text) + PieceAt(fmt, i, va, arg).text
      ensures next == PieceAt(fmt, i, va, arg).next && arg' == PieceAt(fmt, i, va, arg).arg
    {
      hide ConversionText, ParseDirective, Patch;
      if fmt[i] != '%' {
        Put(fmt[i]);
        return i + 1, arg;
      }
      var d := ReadDirective(fmt, i + 1, va, arg);
      var taken := Convert(d, CharAt(fmt, d.next), va);
      return d.next + 1, d.arg + taken;
    }

    /** The loop of _vsnprintf. */
    method PutAll(fmt: string, va: Args)
      requires Valid() && Complete(fmt, 0, va, 0) && text == "" && |Rendered(fmt, 0, va, 0)| <= total
      modifies this`idx, this`text, buffer
      ensures Valid() && text == Rendered(fmt, 0, va, 0)
    {
      ghost var all := Rendered(fmt, 0, va, 0);
      var i, arg := 0, 0;
      while i < |fmt|
        invariant 0 <= i <= |fmt| && 0 <= arg && Valid()
        invariant Complete(fmt, i, va, arg) && text + Rendered(fmt, i, va, arg) == all
        decreases |fmt| - i
      {
        ghost var p := PieceAt(fmt, i, va, arg);
        ghost var rest := Rendered(fmt, p.next, va, p.arg);
        assert Rendered(fmt, i, va, arg) == p.text + rest;
        assert text + (p.text + rest) == (text + p.text) + rest;
        hide PieceAt, Patch, Rendered, Complete;
        i, arg := PutPiece(fmt, i, va, arg);
      }
    }

    /** out(0, buffer, idx < maxlen ? idx : maxlen - 1, maxlen): the terminator
        goes behind the output, or over the last character that fitted. */
    method Terminate()
      requires Valid() && idx < total
      modifies buffer
      ensures buffer != null && maxlen > 0 ==>
                buffer[..] == Patch(was, 0, Clip(text, maxlen - 1) + ['\0'])
      ensures buffer != null && maxlen == 0 ==> buffer[..] == was
    {
      var at := if idx < maxlen then idx else Wrap32(U32_MODULUS + maxlen - 1);
      if buffer != null {
        if at < maxlen {
          assert Clip(text, maxlen)[..at] == Clip(text, maxlen - 1);
          buffer[at] := '\0';
          assert buffer[..] == Patch(was, 0, Clip(text, maxlen - 1) + ['\0']);
        } else {
          assert Clip(text, maxlen) == "";
          PatchNothing(was, 0);
        }
      }
    }
  }

  /** _atoi, on the digits from i on. */
  method ReadNumber(fmt: string, i: nat) returns (n: U32, next: nat)
    requires i <= |fmt|
    ensures (n, next) == ParseNumber(fmt, i, 0)
  {
    n, next := 0, i;
    while IsDigit(CharAt(fmt, next))
      invariant i <= next <= |fmt| && ParseNumber(fmt, next, n) == ParseNumber(fmt, i, 0)
      decreases |fmt| - next
    {
      n := Wrap32(n * 10 + (fmt[next] as int - '0' as int));
      next := next + 1;
    }
  }

  /** The flag loop of _vsnprintf. */
  method ReadFlags(fmt: string, i: nat) returns (flags: Flags, next: nat)
    requires i <= |fmt|
    ensures (flags, next) == ParseFlags(fmt, i, NO_FLAGS)
  {
    flags, next := NO_FLAGS, i;
    var more := true;
    while more
      invariant i <= next <= |fmt| && (!more ==> ParseFlags(fmt, next, flags) == (flags, next))
      invariant ParseFlags(fmt, next, flags) == ParseFlags(fmt, i, NO_FLAGS)
      decreases |fmt| - next, if more then 1 else 0
    {
      match CharAt(fmt, next) {
        case '0' => flags := flags.(zeroPad := true); next := next + 1;
        case '-' => flags := flags.(left := true); next := next + 1;
        case '+' => flags := flags.(plus := true); next := next + 1;
        case ' ' => flags := flags.(space := true); next := next + 1;
        case '#' => flags := flags.(hash := true); next := next + 1;
        case _ => more := false;
      }
    }
  }

  /** The base and the flags of an integer conversion. */
  method IntegerSetup(conv: char, flags: Flags) returns (base: nat, f: Flags)
    requires IsInteger(conv)
    ensures base == BaseOf(conv) && f == IntegerFlags(flags, conv)
  {
    base := 10;
    if conv == 'x' || conv == 'X' {
      base := 16;
    } else if conv == 'o' {
      base := 8;
    } else if conv == 'b' {
      base := 2;
    }
    hide DecimalFlags, CaseFlags, SignFlags, PrecisionFlags;
    f := PrecisionFlags(SignFlags(CaseFlags(DecimalFlags(flags, base), conv), conv));
  }

  method ReadWidth(fmt: string, d0: Directive, va: Args) returns (d: Directive)
    requires d0.next <= |fmt|
    ensures d == ParseWidth(fmt, d0, va)
  {
    d := d0;
    if IsDigit(CharAt(fmt, d.next)) {
      var n, next := ReadNumber(fmt, d.next);
      d := d.(width := n, next := next);
    } else if CharAt(fmt, d.next) == '*' {
      var w := ToInt32(va(d.arg).word);
      if w < 0 {
        d := d.(flags := d.flags.(left := true), width := -w);
      } else {
        d := d.(width := w);
      }
      d := d.(next := d.next + 1, arg := d.arg + 1);
    }
  }

  method ReadPrecision(fmt: string, d0: Directive, va: Args) returns (d: Directive)
    requires d0.next <= |fmt|
    ensures d == ParsePrecision(fmt, d0, va)
  {
    d := d0;
    if CharAt(fmt, d.next) == '.' {
      d := d.(flags := d.flags.(precision := true), next := d.next + 1);
      if IsDigit(CharAt(fmt, d.next)) {
        var n, next := ReadNumber(fmt, d.next);
        d := d.(precision := n, next := next);
      } else if CharAt(fmt, d.next) == '*' {
        var prec := ToInt32(va(d.arg).word);
        d := d.(precision := if prec > 0 then prec else 0, next := d.next + 1, arg := d.arg + 1);
      }
    }
  }

  method ReadLength(fmt: string, d0: Directive) returns (d: Directive)
    requires d0.next <= |fmt|
    ensures d == ParseLength(fmt, d0)
  {
    d := d0;
    match CharAt(fmt, d.next) {
      case 'l' =>
        d := d.(flags := d.flags.(long := true), next := d.next + 1);
        if CharAt(fmt, d.next) == 'l' {
          d := d.(flags := d.flags.(longLong := true), next := d.next + 1);
        }
      case 'h' =>
        d := d.(flags := d.flags.(short := true), next := d.next + 1);
        if CharAt(fmt, d.next) == 'h' {
          d := d.(flags := d.flags.(char8 := true), next := d.next + 1);
        }
      case 'j' => d := d.(flags := d.flags.(longLong := true), next := d.next + 1);
      case 'z' => d := d.(flags := d.flags.(long := true), next := d.next + 1);
      case _ =>
    }
  }

  /** From the percent sign to the conversion character. */
  method ReadDirective(fmt: string, i: nat, va: Args, arg: nat) returns (d: Directive)
    requires i <= |fmt|
    ensures d == ParseDirective(fmt, i, va, arg)
  {
    hide ParseFlags, ParseWidth, ParsePrecision, ParseLength;
    var flags, p := ReadFlags(fmt, i);
    d := ReadWidth(fmt, Directive(flags, 0, 0, p, arg), va);
    d := ReadPrecision(fmt, d, va);
    d := ReadLength(fmt, d);
  }

  /** snprintf and vsnprintf: whatever the limit, the buffer receives the first
      maxlen - 1 characters of the output and a terminator, nothing else changes,
      and the length of the whole output is returned. */
  method Vsnprintf(buffer: array?<char>, maxlen: U32, fmt: string, va: Args) returns (ret: int)
    requires Complete(fmt, 0, va, 0) && |Rendered(fmt, 0, va, 0)| < U32_MODULUS
    requires buffer != null ==> Min(maxlen, |Rendered(fmt, 0, va, 0)| + 1) <= buffer.Length
    modifies buffer
    ensures ret == ToInt32(|Rendered(fmt, 0, va, 0)|)
    ensures buffer != null && maxlen > 0 ==>
              buffer[..] == Patch(old(buffer[..]), 0, Clip(Rendered(fmt, 0, va, 0), maxlen - 1) + ['\0'])
    ensures buffer != null && maxlen == 0 ==> buffer[..] == old(buffer[..])
  {
    ghost var all := Rendered(fmt, 0, va, 0);
    var o := new Output(buffer, maxlen, |all| + 1);
    hide Rendered, Complete, Patch;
    o.PutAll(fmt, va);
    o.Terminate();
    ret := ToInt32(o.idx);
  }

  /** The first half of _ntoa_format: zeros, prefix and sign. */
  method Decorate(buf: array<char>, len: nat, negative: bool, base: nat, prec: U32, width: U32, flags: Flags)
    returns (n: nat, w: U32)
    requires buf.Length == NTOA_BUFFER_SIZE && len <= buf.Length
    modifies buf
    ensures w == if flags.left then width else ZeroWidth(negative, width, flags)
    ensures n <= buf.Length
    ensures buf[..n] == Signed(Hashed(ZeroPadded(old(buf[..len]), prec, w, flags), base, prec, w, flags), negative, flags)
  {
    n, w := len, width;
    ghost var digits := buf[..len];
    // pad leading zeros
    if !flags.left {
      if w > 0 && flags.zeroPad && (negative || flags.plus || flags.space) {
        w := w - 1;
      }
      n := FillZeros(buf, n, prec);
      if flags.zeroPad {
        n := FillZeros(buf, n, w);
      }
    }
    assert buf[..n] == ZeroPadded(digits, prec, w, flags);
    hide ZeroPadded, Extend;
    n := AddHash(buf, n, base, prec, w, flags);
    hide Hashed;
    if n < NTOA_BUFFER_SIZE {
      if negative {
        n := AddChar(buf, n, '-');
      } else if flags.plus {
        n := AddChar(buf, n, '+');
      } else if flags.space {
        n := AddChar(buf, n, ' ');
      }
    }
  }

  /** buf[len++] = c, while there is room. */
  method AddChar(buf: array<char>, len: nat, c: char) returns (n: nat)
    requires buf.Length == NTOA_BUFFER_SIZE && len <= buf.Length
    modifies buf
    ensures n <= buf.Length && buf[..n] == Add(old(buf[..len]), c)
  {
    n := len;
    if len < NTOA_BUFFER_SIZE {
      buf[len] := c;
      n := len + 1;
      assert buf[..n] == old(buf[..len]) + [c];
    }
  }

  /** Zeros up to a length, while there is room. */
  method FillZeros(buf: array<char>, len: nat, upto: U32) returns (n: nat)
    requires buf.Length == NTOA_BUFFER_SIZE && len <= buf.Length
    modifies buf
    ensures n <= buf.Length && buf[..n] == Extend(old(buf[..len]), '0', Min(upto, NTOA_BUFFER_SIZE))
  {
    n := len;
    ghost var digits := buf[..len];
    while n < upto && n < NTOA_BUFFER_SIZE
      invariant len <= n <= Max(len, Min(upto, NTOA_BUFFER_SIZE))
      invariant buf[..n] == digits + Repeat('0', n - len)
    {
      buf[n] := '0';
      assert buf[..n + 1] == buf[..n] + ['0'];
      assert Repeat('0', n + 1 - len) == Repeat('0', n - len) + ['0'];
      n := n + 1;
    }
  }

  /** The hash branch of _ntoa_format. */
  method AddHash(buf: array<char>, len: nat, base: nat, prec: U32, width: U32, flags: Flags) returns (n: nat)
    requires buf.Length == NTOA_BUFFER_SIZE && len <= buf.Length
    modifies buf
    ensures n <= buf.Length && buf[..n] == Hashed(old(buf[..len]), base, prec, width, flags)
  {
    n := len;
    if flags.hash {
      if !flags.precision && n > 0 && (n == prec || n == width) {
        n := n - 1;
        if n > 0 && base == 16 {
          n := n - 1;
        }
      }
      ghost var b := buf[..n];
      if base == 16 && !flags.upper && n < NTOA_BUFFER_SIZE {
        n := AddChar(buf, n, 'x');
      } else if base == 16 && flags.upper && n < NTOA_BUFFER_SIZE {
        n := AddChar(buf, n, 'X');
      } else if base == 2 && n < NTOA_BUFFER_SIZE {
        n := AddChar(buf, n, 'b');
      }
      n := AddChar(buf, n, '0');
    }
  }

  /** The digit loop moves one digit at a time from the end of the numeral to
      the end of the buffer. */
  lemma NextDigit(v: nat, base: nat, upper: bool, len: nat, written: string)
    requires 2 <= base <= 36 && (len == 0 || v > 0)
    ensures Unwritten(v, base, upper, len) + Reverse(written)
         == Unwritten(v / base, base, upper, len + 1) + Reverse(written + [DigitChar(v % base, upper)])
  {
    ToDigitsStep(v, base);
    var c := DigitChar(v % base, upper);
    if v < base {
      DivUnique(v, base, 0, v);
      assert Numeral(v, base, upper) == [c];
    } else {
      hide ToDigits;
      assert Numeral(v, base, upper) == Numeral(v / base, base, upper) + [c];
    }
    assert Reverse(written + [c]) == [c] + Reverse(written);
  }

  /** The digit loop of _ntoa_long: least significant digit first. */
  method DigitsInto(buf: array<char>, value: U32, base: nat, upper: bool) returns (len: nat)
    requires buf.Length == NTOA_BUFFER_SIZE && 2 <= base <= 36
    modifies buf
    ensures len <= buf.Length && buf[..len] == Reverse(Numeral(value, base, upper))
  {
    DigitsOfWord(value, base);
    ghost var text := Numeral(value, base, upper);
    assert |text| <= NTOA_BUFFER_SIZE;
    var v: nat := value;
    len := 0;
    var more := true;
    hide Numeral, DigitChar;
    while more
      invariant 0 <= len <= NTOA_BUFFER_SIZE && more == (len == 0 || (v > 0 && len < NTOA_BUFFER_SIZE))
      invariant text == Unwritten(v, base, upper, len) + Reverse(buf[..len])
      decreases NTOA_BUFFER_SIZE - len
    {
      NextDigit(v, base, upper, len, buf[..len]);
      len := StoreDigit(buf, len, v % base, upper);
      v := v / base;
      more := v > 0 && len < NTOA_BUFFER_SIZE;
    }
    assert |Unwritten(v, base, upper, len)| > 0 <==> v > 0;
    assert Reverse(text) == buf[..len];
  }

  /** The part of v's numeral still to be written after len digits. */
  function Unwritten(v: nat, base: nat, upper: bool, len: nat): string
    requires 2 <= base <= 36
  {
    if len == 0 || v > 0 then Numeral(v, base, upper) else ""
  }

  method StoreDigit(buf: array<char>, len: nat, digit: nat, upper: bool) returns (n: nat)
    requires len < buf.Length && digit < 36
    modifies buf
    ensures n == len + 1 && buf[..n] == old(buf[..len]) + [DigitChar(digit, upper)]
  {
    buf[len] := if digit < 10 then '0' + digit as char else (if upper then 'A' else 'a') + (digit - 10) as char;
    n := len + 1;
    assert buf[..n] == old(buf[..len]) + [DigitChar(digit, upper)];
  }
}
