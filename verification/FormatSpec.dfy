/** What vsnprintf in kernel/vsprintf.c prints: the directives of a format and the
    text of each conversion. Where the code departs from sections 7.19.6.1 and
    7.19.6.5 of ISO/IEC 9899:1999, this follows the code. */
module FormatSpec {
  import opened Common
  import opened Digits

  datatype Flags = Flags(zeropad: bool, sign: bool, plus: bool, space: bool, left: bool, special: bool, large: bool)

  const NoFlags: Flags := Flags(false, false, false, false, false, false, false)

  datatype MaybeString = NoString | Str(chars: string)

  /** A variable argument: its integer value, and the string it points to if any. */
  datatype Arg = Arg(num: int, str: MaybeString)

  /** va_arg, with zero for an argument that is not there. */
  function ArgAt(args: seq<Arg>, k: nat): Arg { if k < |args| then args[k] else Arg(0, NoString) }

  function Unsigned(x: int, bound: nat): nat
    requires bound > 0
  {
    x % bound
  }

  function Signed(x: int, bound: nat): int
    requires bound > 0
  {
    var u := x % bound; if 2 * u >= bound then u - bound else u
  }

  function Repeat(c: char, n: int): string { if n <= 0 then [] else [c] + Repeat(c, n - 1) }

  function Max(a: int, b: int): int { if a < b then b else a }

  // ----- number()

  /** The digits printed are those of this number: the most negative value has a magnitude of 2^63. */
  function Magnitude(num: int, fl: Flags): nat {
    if fl.sign && num < 0 then -num else Unsigned(num, TWO64)
  }

  function SignText(num: int, fl: Flags): string {
    if !fl.sign then ""
    else if num < 0 then "-" else if fl.plus then "+" else if fl.space then " " else ""
  }

  function PrefixText(base: nat, fl: Flags): string {
    if !fl.special then "" else if base == 16 then (if fl.large then "0X" else "0x") else if base == 8 then "0" else ""
  }

  /** Padding, sign, prefix, zeros up to the precision, digits. */
  function LayoutText(sign: string, prefix: string, digits: string, width: int, precision: int, fl: Flags): string {
    var prec := Max(precision, |digits|);
    var pad := width - |sign| - |prefix| - prec;
    (if !fl.zeropad && !fl.left then Repeat(' ', pad) else "")
    + sign + prefix
    + (if fl.zeropad && !fl.left then Repeat('0', pad) else "")
    + Repeat('0', prec - |digits|) + digits
    + (if fl.left then Repeat(' ', pad) else "")
  }

  function NumberText(num: int, base: nat, width: int, precision: int, fl: Flags): string
    requires 2 <= base <= 36
  {
    LayoutText(SignText(num, fl), PrefixText(base, fl), Numeral(Magnitude(num, fl), base, fl.large), width, precision,
               fl)
  }

  // ----- directives

  datatype Qualifier = NoQual | Qh | Ql | QL | QZ

  /** A parsed directive: `at` is the place of its conversion character. */
  datatype Directive = Directive(fl: Flags, width: int, precision: int, qual: Qualifier, at: nat, argi: nat)

  function At(fmt: string, i: nat): char { if i < |fmt| then fmt[i] else '\0' }

  predicate IsDigit(c: char) { '0' <= c <= '9' }

  function SetFlag(fl: Flags, c: char): Flags {
    match c
    case '-' => fl.(left := true)
    case '+' => fl.(plus := true)
    case ' ' => fl.(space := true)
    case '#' => fl.(special := true)
    case _ => fl.(zeropad := true)
  }

  predicate IsFlag(c: char) { c in {'-', '+', ' ', '#', '0'} }

  function FlagsFrom(fmt: string, i: nat, fl: Flags): (r: (Flags, nat))
    ensures i <= r.1 && (i <= |fmt| ==> r.1 <= |fmt|)
    decreases |fmt| - i
  {
    if i < |fmt| && IsFlag(fmt[i]) then FlagsFrom(fmt, i + 1, SetFlag(fl, fmt[i])) else (fl, i)
  }

  /** skip_atoi, from a number read so far. */
  function AtoiFrom(fmt: string, i: nat, n: nat): (r: (nat, nat))
    ensures i <= r.1 && (i <= |fmt| ==> r.1 <= |fmt|)
    decreases |fmt| - i
  {
    if i < |fmt| && IsDigit(fmt[i]) then AtoiFrom(fmt, i + 1, n * 10 + (fmt[i] as int - '0' as int)) else (n, i)
  }

  function WidthAt(fmt: string, d: Directive, args: seq<Arg>): Directive {
    if IsDigit(At(fmt, d.at)) then
      var r := AtoiFrom(fmt, d.at, 0); d.(width := r.0, at := r.1)
    else if At(fmt, d.at) == '*' then
      var w := Signed(ArgAt(args, d.argi).num, TWO32);
      if w < 0 then d.(width := -w, fl := d.fl.(left := true), at := d.at + 1, argi := d.argi + 1)
      else d.(width := w, at := d.at + 1, argi := d.argi + 1)
    else d
  }

  function PrecisionAt(fmt: string, d: Directive, args: seq<Arg>): Directive {
    if At(fmt, d.at) != '.' then d
    else if IsDigit(At(fmt, d.at + 1)) then
      var r := AtoiFrom(fmt, d.at + 1, 0); d.(precision := r.0, at := r.1)
    else if At(fmt, d.at + 1) == '*' then
      d.(precision := Max(Signed(ArgAt(args, d.argi).num, TWO32), 0), at := d.at + 2, argi := d.argi + 1)
    else d.(precision := 0, at := d.at + 1)
  }

  function QualifierAt(fmt: string, d: Directive): Directive {
    match At(fmt, d.at)
    case 'h' => d.(qual := Qh, at := d.at + 1)
    case 'L' => d.(qual := QL, at := d.at + 1)
    case 'Z' => d.(qual := QZ, at := d.at + 1)
    case 'l' => if At(fmt, d.at + 1) == 'l' then d.(qual := QL, at := d.at + 2) else d.(qual := Ql, at := d.at + 1)
    case _ => d
  }

  /** The directive whose '%' is just before place i. */
  function Parse(fmt: string, i: nat, args: seq<Arg>, k: nat): (d: Directive)
    requires i <= |fmt|
    ensures i <= d.at <= |fmt| && k <= d.argi
  {
    var f := FlagsFrom(fmt, i, NoFlags);
    var d0 := Directive(f.0, -1, -1, NoQual, f.1, k);
    QualifierAt(fmt, PrecisionAt(fmt, WidthAt(fmt, d0, args), args))
  }

  // ----- conversions

  /** The value that reaches number(), a signed 64-bit integer. */
  function NumArg(a: Arg, qual: Qualifier, sign: bool): int {
    match qual
    case QL => Signed(a.num, TWO64)
    case Ql => if sign then Signed(a.num, TWO32) else Unsigned(a.num, TWO32)
    case QZ => Unsigned(a.num, TWO32)
    case Qh => if sign then Signed(a.num, 0x1_0000) else Unsigned(a.num, 0x1_0000)
    case NoQual => if sign then Signed(a.num, TWO32) else Unsigned(a.num, TWO32)
  }

  function Pad(fl: Flags, s: string, n: int): string { if fl.left then s + Repeat(' ', n) else Repeat(' ', n) + s }

  function CharText(d: Directive, a: Arg): string { Pad(d.fl, [Unsigned(a.num, 256) as char], d.width - 1) }

  function StringArg(a: Arg): string { if a.str.NoString? then "<NULL>" else a.str.chars }

  function StringText(d: Directive, a: Arg): string {
    var s := StringArg(a);
    var shown := if 0 <= d.precision < |s| then s[..d.precision] else s;
    Pad(d.fl, shown, d.width - |shown|)
  }

  predicate IsInteger(c: char) { c in {'d', 'i', 'u', 'o', 'x', 'X'} }

  function IntegerText(c: char, d: Directive, a: Arg): string
    requires IsInteger(c)
  {
    var fl := d.fl.(sign := c == 'd' || c == 'i', large := c == 'X');
    var base := if c == 'o' then 8 else if c == 'x' || c == 'X' then 16 else 10;
    NumberText(NumArg(a, d.qual, fl.sign), base, d.width, d.precision, fl)
  }

  /** What %p prints after its "0x". */
  function PointerText(d: Directive, a: Arg): string {
    if d.width == -1 then NumberText(Unsigned(a.num, TWO32), 16, 8, d.precision, d.fl.(zeropad := true))
    else NumberText(Unsigned(a.num, TWO32), 16, d.width, d.precision, d.fl)
  }

  /** Output so far: the text without any limit, the value of str - buf, what %n stored, arguments used. */
  datatype Output = Output(text: string, pos: nat, stores: seq<nat>, argi: nat)

  function Emit(o: Output, s: string): Output { o.(text := o.text + s, pos := o.pos + |s|) }

  /** How many of the two characters "0x" a %p at place pos still advances over. */
  function PointerRoom(pos: nat, size: nat): nat { if pos + 2 < size then 2 else if pos + 1 < size then 1 else 0 }

  function Convert(c: char, d: Directive, args: seq<Arg>, o: Output, size: nat): Output {
    var a, o1 := ArgAt(args, d.argi), o.(argi := d.argi);
    var o2 := o.(argi := d.argi + 1);
    if c == 'c' then Emit(o2, CharText(d, a))
    else if c == 's' then Emit(o2, StringText(d, a))
    else if c == 'p' then
      Emit(o2.(text := o.text + "0x", pos := o.pos + PointerRoom(o.pos, size)), PointerText(d, a))
    else if c == 'n' then o2.(stores := o.stores + [o.pos])
    else if IsInteger(c) then Emit(o2, IntegerText(c, d, a))
    else if c == '%' then Emit(o1, "%")
    else Emit(o1, ['%', c])
  }

  /** The run of vsnprintf over the rest of the format, from place i. */
  function Run(fmt: string, i: nat, args: seq<Arg>, o: Output, size: nat): Output
    requires i <= |fmt|
    decreases |fmt| - i
  {
    if i == |fmt| then o
    else if fmt[i] != '%' then Run(fmt, i + 1, args, Emit(o, [fmt[i]]), size)
    else
      var d := Parse(fmt, i + 1, args, o.argi);
      if d.at == |fmt| then Emit(o.(argi := d.argi), "%")
      else Run(fmt, d.at + 1, args, Convert(fmt[d.at], d, args, o, size), size)
  }

  const Start: Output := Output("", 0, [], 0)

  /** The whole text of a format: what a buffer of any size would like to hold. */
  function Text(fmt: string, args: seq<Arg>): string { Run(fmt, 0, args, Start, 0).text }
}
