/** What the formatter of kern/printf.c writes: directives, and the text of each
    conversion, as the code computes it. */
module Format {
  import opened Words
  import opened Buffers
  import opened Digits

  const NTOA_BUFFER_SIZE := 32

  datatype Flags = Flags(
    zeroPad: bool, left: bool, plus: bool, space: bool, hash: bool, upper: bool,
    char8: bool, short: bool, long: bool, longLong: bool, precision: bool)

  const NO_FLAGS := Flags(false, false, false, false, false, false, false, false, false, false, false)

  /** A variadic argument: the word passed, and the string it points to if it is
      a pointer to one. */
  datatype Arg = Arg(word: U32, str: string)

  /** The arguments of a call, by position. */
  type Args = nat -> Arg

  // ---- directives

  predicate IsFlag(c: char) {
    c == '0' || c == '-' || c == '+' || c == ' ' || c == '#'
  }

  /** The flags, and the one that a flag character sets. */
  function WithFlag(flags: Flags, c: char): Flags {
    match c
    case '0' => flags.(zeroPad := true)
    case '-' => flags.(left := true)
    case '+' => flags.(plus := true)
    case ' ' => flags.(space := true)
    case _ => flags.(hash := true)
  }

  /** The flag characters from i on. */
  function ParseFlags(fmt: string, i: nat, flags: Flags): (r: (Flags, nat))
    requires i <= |fmt|
    ensures i <= r.1 <= |fmt|
    decreases |fmt| - i
  {
    if IsFlag(CharAt(fmt, i)) then ParseFlags(fmt, i + 1, WithFlag(flags, CharAt(fmt, i))) else (flags, i)
  }

  /** _atoi: the digits from i on, accumulated in 32 bits. */
  function ParseNumber(fmt: string, i: nat, n: U32): (r: (U32, nat))
    requires i <= |fmt|
    ensures i <= r.1 <= |fmt|
    decreases |fmt| - i
  {
    if IsDigit(CharAt(fmt, i)) then
      ParseNumber(fmt, i + 1, Wrap32(n * 10 + (CharAt(fmt, i) as int - '0' as int)))
    else (n, i)
  }

  /** A directive being parsed: what is known so far, the next character of the
      format and the next argument. */
  datatype Directive = Directive(flags: Flags, width: U32, precision: U32, next: nat, arg: nat)

  function Magnitude32(w: int): U32
    requires -0x8000_0000 <= w < 0x8000_0000
  {
    if w < 0 then -w else w
  }

  function ParseWidth(fmt: string, d: Directive, va: Args): (r: Directive)
    requires d.next <= |fmt|
    ensures d.next <= r.next <= |fmt|
  {
    if IsDigit(CharAt(fmt, d.next)) then
      var n := ParseNumber(fmt, d.next, 0);
      d.(width := n.0, next := n.1)
    else if CharAt(fmt, d.next) == '*' then
      var w := ToInt32(va(d.arg).word);
      d.(flags := if w < 0 then d.flags.(left := true) else d.flags,
         width := Magnitude32(w), next := d.next + 1, arg := d.arg + 1)
    else d
  }

  function ParsePrecision(fmt: string, d: Directive, va: Args): (r: Directive)
    requires d.next <= |fmt|
    ensures d.next <= r.next <= |fmt|
  {
    if CharAt(fmt, d.next) != '.' then d else
      var e := d.(flags := d.flags.(precision := true), next := d.next + 1);
      if IsDigit(CharAt(fmt, e.next)) then
        var n := ParseNumber(fmt, e.next, 0);
        e.(precision := n.0, next := n.1)
      else if CharAt(fmt, e.next) == '*' then
        var p := ToInt32(va(e.arg).word);
        e.(precision := if p > 0 then p else 0, next := e.next + 1, arg := e.arg + 1)
      else e
  }

  function ParseLength(fmt: string, d: Directive): (r: Directive)
    requires d.next <= |fmt|
    ensures d.next <= r.next <= |fmt|
  {
    match CharAt(fmt, d.next)
    case 'l' =>
      if CharAt(fmt, d.next + 1) == 'l' then d.(flags := LongLength(d.flags, true), next := d.next + 2)
      else d.(flags := LongLength(d.flags, false), next := d.next + 1)
    case 'h' =>
      if CharAt(fmt, d.next + 1) == 'h' then d.(flags := ShortLength(d.flags, true), next := d.next + 2)
      else d.(flags := ShortLength(d.flags, false), next := d.next + 1)
    case 'j' => d.(flags := MaxLength(d.flags), next := d.next + 1)
    case 'z' => d.(flags := LongLength(d.flags, false), next := d.next + 1)
    case _ => d
  }

  /** The flags of the length j. */
  function MaxLength(flags: Flags): Flags {
    flags.(longLong := true)
  }

  /** The flags of the lengths l, ll and z. */
  function LongLength(flags: Flags, twice: bool): Flags {
    flags.(long := true, longLong := flags.longLong || twice)
  }

  /** The flags of the lengths h and hh. */
  function ShortLength(flags: Flags, twice: bool): Flags {
    flags.(short := true, char8 := flags.char8 || twice)
  }

  /** The directive that starts behind the percent sign, up to its conversion
      character. */
  function ParseDirective(fmt: string, i: nat, va: Args, arg: nat): (r: Directive)
    requires i <= |fmt|
    ensures i <= r.next <= |fmt|
  {
    var f := ParseFlags(fmt, i, NO_FLAGS);
    ParseLength(fmt, ParsePrecision(fmt, ParseWidth(fmt, Directive(f.0, 0, 0, f.1, arg), va), va))
  }

  // ---- the text of a conversion

  function Repeat(c: char, n: int): (s: string)
    ensures |s| == Max(n, 0)
  {
    if n <= 0 then "" else seq(n, _ => c)
  }

  /** s made at least n characters long with c. */
  function Extend(s: string, c: char, n: int): (r: string)
    ensures |r| == Max(|s|, n)
  {
    s + Repeat(c, n - |s|)
  }

  /** _out_rev: the digit buffer, last character first, in its field. */
  function OutRevText(buf: string, width: nat, flags: Flags): string {
    (if flags.left || flags.zeroPad then "" else Repeat(' ', width - |buf|))
    + Reverse(buf)
    + (if flags.left then Repeat(' ', width - |buf|) else "")
  }

  /** The width left for zeros when a sign is to come. */
  function ZeroWidth(negative: bool, width: nat, flags: Flags): nat {
    if width > 0 && flags.zeroPad && (negative || flags.plus || flags.space) then width - 1 else width
  }

  /** The zeros that _ntoa_format adds to the reversed digits. */
  function ZeroPadded(buf: string, prec: nat, width: nat, flags: Flags): string {
    if flags.left then buf else
      var b := Extend(buf, '0', Min(prec, NTOA_BUFFER_SIZE));
      if flags.zeroPad then Extend(b, '0', Min(width, NTOA_BUFFER_SIZE)) else b
  }

  /** s and one more character, if the buffer still takes it. */
  function Add(s: string, c: char): string {
    if |s| < NTOA_BUFFER_SIZE then s + [c] else s
  }

  /** The alternative form: zeros may give way to the prefix. */
  function Hashed(buf: string, base: nat, prec: nat, width: nat, flags: Flags): string {
    if !flags.hash then buf else
      var b := if !flags.precision && |buf| > 0 && (|buf| == prec || |buf| == width) then
                 if |buf| > 1 && base == 16 then buf[..|buf| - 2] else buf[..|buf| - 1]
               else buf;
      var p := if base == 16 then Add(b, if flags.upper then 'X' else 'x')
               else if base == 2 then Add(b, 'b') else b;
      Add(p, '0')
  }

  /** The sign, if any. */
  function Sign(negative: bool, flags: Flags): string {
    if negative then "-" else if flags.plus then "+" else if flags.space then " " else ""
  }

  function Signed(buf: string, negative: bool, flags: Flags): string {
    if |buf| < NTOA_BUFFER_SIZE then buf + Sign(negative, flags) else buf
  }

  /** _ntoa_format: zeros, prefix and sign added to reversed digits, in a field. */
  function NtoaFormatText(buf: string, negative: bool, base: nat, prec: nat, width: nat, flags: Flags): string {
    var w := if flags.left then width else ZeroWidth(negative, width, flags);
    var digits := ZeroPadded(buf, prec, w, flags);
    OutRevText(Signed(Hashed(digits, base, prec, w, flags), negative, flags), w, flags)
  }

  /** _ntoa_long: an unsigned magnitude and a sign. A zero with a precision has
      no digits. */
  function NtoaLongText(value: U32, negative: bool, base: nat, prec: nat, width: nat, flags: Flags): string
    requires 2 <= base <= 36
  {
    var digits := if flags.precision && value == 0 then "" else Numeral(value, base, flags.upper);
    NtoaFormatText(Reverse(digits), negative, base, prec, width,
                   if value == 0 then flags.(hash := false) else flags)
  }

  predicate IsInteger(conv: char) {
    conv == 'd' || conv == 'i' || conv == 'u' || conv == 'x' || conv == 'X' || conv == 'o' || conv == 'b'
  }

  predicate IsSigned(conv: char) {
    conv == 'd' || conv == 'i'
  }

  function BaseOf(conv: char): (base: nat)
    ensures 2 <= base <= 16
  {
    if conv == 'x' || conv == 'X' then 16 else if conv == 'o' then 8 else if conv == 'b' then 2 else 10
  }

  // the steps that adapt the flags to an integer conversion

  function DecimalFlags(flags: Flags, base: nat): Flags {
    if base == 10 then flags.(hash := false) else flags
  }

  function CaseFlags(flags: Flags, conv: char): Flags {
    if conv == 'X' then flags.(upper := true) else flags
  }

  function SignFlags(flags: Flags, conv: char): Flags {
    if IsSigned(conv) then flags else flags.(plus := false, space := false)
  }

  function PrecisionFlags(flags: Flags): Flags {
    if flags.precision then flags.(zeroPad := false) else flags
  }

  /** The flags that an integer conversion goes by. */
  function IntegerFlags(flags: Flags, conv: char): Flags {
    PrecisionFlags(SignFlags(CaseFlags(DecimalFlags(flags, BaseOf(conv)), conv), conv))
  }

  /** A word narrowed to the signed type that the length flags name. */
  function SignedOf(word: U32, flags: Flags): (v: int)
    ensures -0x8000_0000 <= v < 0x8000_0000
  {
    if flags.long then ToInt32(word)
    else if flags.char8 then (if word % 0x100 < 0x80 then word % 0x100 else word % 0x100 - 0x100)
    else if flags.short then (if word % 0x1_0000 < 0x8000 then word % 0x1_0000 else word % 0x1_0000 - 0x1_0000)
    else ToInt32(word)
  }

  function UnsignedOf(word: U32, flags: Flags): U32 {
    if flags.long then word else if flags.char8 then word % 0x100 else if flags.short then word % 0x1_0000 else word
  }

  /** An integer conversion. A long long one is compiled out: it writes nothing
      and takes no argument. */
  function IntegerText(word: U32, conv: char, prec: nat, width: nat, flags: Flags): string {
    var f := IntegerFlags(flags, conv);
    if f.longLong then ""
    else if IsSigned(conv) then
      var v := SignedOf(word, f);
      NtoaLongText(Magnitude32(v), v < 0, BaseOf(conv), prec, width, f)
    else NtoaLongText(UnsignedOf(word, f), false, BaseOf(conv), prec, width, f)
  }

  /** Text in a field of spaces. */
  function Padded(s: string, width: nat, flags: Flags): string {
    if flags.left then s + Repeat(' ', width - |s|) else Repeat(' ', width - |s|) + s
  }

  /** The text of one conversion, and the number of arguments it takes. */
  function ConversionText(d: Directive, conv: char, va: Args): (string, nat) {
    if IsInteger(conv) then
      (IntegerText(va(d.arg).word, conv, d.precision, d.width, d.flags), if d.flags.longLong then 0 else 1)
    else match conv
      case 'c' => (Padded([(va(d.arg).word % 0x100) as char], d.width, d.flags), 1)
      case 's' =>
        var s := va(d.arg).str;
        (Padded(if d.flags.precision then s[..Min(|s|, d.precision)] else s, d.width, d.flags), 1)
      case 'p' =>
        (NtoaLongText(va(d.arg).word, false, 16, d.precision, 8, d.flags.(zeroPad := true, upper := true)), 1)
      case _ => ([conv], 0)
  }

  /** A piece of output, the next position in the format, the next argument. */
  datatype Piece = Piece(text: string, next: nat, arg: nat)

  /** What the character or the directive at i writes. */
  function PieceAt(fmt: string, i: nat, va: Args, arg: nat): (p: Piece)
    requires i < |fmt|
    ensures i < p.next <= |fmt| + 1
  {
    if fmt[i] != '%' then Piece([fmt[i]], i + 1, arg) else
      var d := ParseDirective(fmt, i + 1, va, arg);
      var c := ConversionText(d, CharAt(fmt, d.next), va);
      Piece(c.0, d.next + 1, d.arg + c.1)
  }

  /** Every directive has its conversion character within the format: the code
      reads past the terminator of any other format. */
  ghost predicate Complete(fmt: string, i: nat, va: Args, arg: nat)
    requires i <= |fmt|
    decreases |fmt| - i
  {
    i < |fmt| ==>
      var p := PieceAt(fmt, i, va, arg);
      p.next <= |fmt| && Complete(fmt, p.next, va, p.arg)
  }

  /** Everything that the format from i on writes. */
  function Rendered(fmt: string, i: nat, va: Args, arg: nat): string
    requires i <= |fmt| && Complete(fmt, i, va, arg)
    decreases |fmt| - i
  {
    if i == |fmt| then "" else
      var p := PieceAt(fmt, i, va, arg);
      p.text + Rendered(fmt, p.next, va, p.arg)
  }
}
