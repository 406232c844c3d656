/** vsnprintf of kernel/vsprintf.c as code: a cursor that writes into a bounded buffer. */
module Format {
  import opened Common
  import opened Digits
  import opened FormatSpec
  import opened FormatLaws
  import FormatGrammar
  import FormatMeaning

  /** The buffer and the cursor `str`; `pos` is str - buf and the last usable place is size - 1. */
  class Sink {
    const buf: array<char>
    const size: nat
    var pos: nat
    ghost var out: string            // the text without any limit
    ghost const orig: seq<char>      // the buffer as it was found

    ghost predicate Valid()
      reads this, buf
    {
      && size <= buf.Length == |orig| && pos <= |out| && (pos < |out| ==> pos + 1 >= size)
      && (forall i :: 0 <= i < |out| && i + 1 < size ==> buf[i] == out[i])
      && (forall i :: size <= i < |orig| ==> buf[i] == orig[i])
    }

    constructor (buf: array<char>, size: nat)
      requires size <= buf.Length
      ensures Valid() && this.buf == buf && this.size == size && pos == 0 && out == "" && orig == buf[..]
    {
      this.buf, this.size, this.pos, this.out, this.orig := buf, size, 0, "", buf[..];
    }

    /** if (str <= end) *str = c; ++str; */
    method Put(c: char)
      requires Valid()
      modifies this`pos, this`out, buf
      ensures Valid() && out == old(out) + [c] && pos == old(pos) + 1
    {
      if pos < size {
        buf[pos] := c;
      }
      pos := pos + 1;
      out := out + [c];
    }

    /** while (n-- > 0) put c; the value n is left with. */
    method Pad(c: char, n0: int) returns (n: int)
      requires Valid()
      modifies this`pos, this`out, buf
      ensures Valid() && out == old(out) + Repeat(c, n0) && pos == old(pos) + |Repeat(c, n0)|
      ensures n == if n0 > 0 then -1 else n0 - 1
    {
      n := n0;
      ghost var done := 0;
      while n > 0
        invariant Valid() && 0 <= done && n == n0 - done && (n0 > 0 ==> done <= n0) && (n0 <= 0 ==> done == 0)
        invariant out == old(out) + Repeat(c, done) && pos == old(pos) + done
      {
        Put(c);
        n := n - 1;
        done := done + 1;
        RepeatSnoc(c, done);
      }
      RepeatLength(c, n0);
      n := n - 1;
    }

    method Print(s: string)
      requires Valid()
      modifies this`pos, this`out, buf
      ensures Valid() && out == old(out) + s && pos == old(pos) + |s|
    {
      var i := 0;
      while i < |s|
        invariant 0 <= i <= |s| && Valid() && out == old(out) + s[..i] && pos == old(pos) + i
      {
        Put(s[i]);
        i := i + 1;
      }
    }

    /** The "0x" of %p: neither character is written, or even counted, at the end of the buffer. */
    method PointerPrefix()
      requires Valid()
      modifies this`pos, this`out, buf
      ensures Valid() && out == old(out) + "0x" && pos == old(pos) + PointerRoom(old(pos), size)
    {
      if pos + 1 < size {
        buf[pos] := '0';
        pos := pos + 1;
      }
      if pos + 1 < size {
        buf[pos] := 'x';
        pos := pos + 1;
      }
      out := out + "0x";
    }

    /** number() after the digit loop. `size` runs below zero once the padding is done. */
    method Layout(sign: string, prefix: string, digits: string, width: int, precision0: int, fl: Flags)
      requires Valid() && !(fl.zeropad && fl.left)
      modifies this`pos, this`out, buf
      ensures Valid()
      ensures var t := LayoutText(sign, prefix, digits, width, precision0, fl);
              out == old(out) + t && pos == old(pos) + |t|
    {
      var precision := precision0;
      if |digits| > precision {
        precision := |digits|;
      }
      var size := width - |sign| - |prefix| - precision;
      ghost var pad, o := size, out;
      ghost var a, b := "", "";
      if !fl.zeropad && !fl.left {
        a := Repeat(' ', size);
        size := Pad(' ', size);
      } else {
        Unit(out);
      }
      Print(sign);
      Print(prefix);
      if !fl.left {
        b := Repeat(if fl.zeropad then '0' else ' ', size);
        size := Pad(if fl.zeropad then '0' else ' ', size);
      } else {
        Unit(out);
      }
      ghost var z := Repeat('0', precision - |digits|);
      var rest := Pad('0', precision - |digits|);
      Print(digits);
      ghost var e := Repeat(' ', size);
      rest := Pad(' ', size);
      Chain(o, a, sign, prefix, b, z, digits, e);
    }

    method Number(num: int, base: nat, size: int, precision: int, fl0: Flags)
      requires Valid() && 2 <= base <= 36 && -0x8000_0000_0000_0000 <= num < TWO64
      modifies this`pos, this`out, buf
      ensures Valid()
      ensures var t := NumberText(num, base, size, precision, fl0); out == old(out) + t && pos == old(pos) + |t|
    {
      var fl := fl0;
      if fl.left {
        fl := fl.(zeropad := false);
      }
      LeftDropsZeros(num, base, size, precision, fl0, fl);
      var sign, n := SignOf(num, fl);
      ScratchSuffices(num, base, fl);
      var digits := DigitsOf(n, base, fl.large);
      Layout(sign, PrefixText(base, fl), digits, size, precision, fl);
    }

    /** Case 'c'. */
    method ConvertChar(d: Directive, a: Arg)
      requires Valid()
      modifies this`pos, this`out, buf
      ensures Valid() && out == old(out) + CharText(d, a) && pos == old(pos) + |CharText(d, a)|
    {
      var width := d.width - 1;
      ghost var o, c := out, [Unsigned(a.num, 256) as char];
      if !d.fl.left {
        width := Pad(' ', width);
      }
      Put(Unsigned(a.num, 256) as char);
      if !d.fl.left { Assoc(o, Repeat(' ', d.width - 1), c); } else { Assoc(o, c, Repeat(' ', width)); }
      var rest := Pad(' ', width);
    }

    /** Case 's'. */
    method ConvertString(d: Directive, a: Arg)
      requires Valid()
      modifies this`pos, this`out, buf
      ensures Valid() && out == old(out) + StringText(d, a) && pos == old(pos) + |StringText(d, a)|
    {
      var s := if a.str.NoString? then "<NULL>" else a.str.chars;
      var len := |s|;  // strnlen(s, precision), where -1 is no limit
      if 0 <= d.precision < len {
        len := d.precision;
      }
      var width := d.width - len;
      ghost var o, shown := out, s[..len];
      assert len == |s| ==> shown == s;
      if !d.fl.left {
        width := Pad(' ', width);
      }
      Print(s[..len]);
      if !d.fl.left { Assoc(o, Repeat(' ', d.width - len), shown); } else { Assoc(o, shown, Repeat(' ', width)); }
      var rest := Pad(' ', width);
    }

    /** Case 'p'. */
    method ConvertPointer(d: Directive, a: Arg)
      requires Valid()
      modifies this`pos, this`out, buf
      ensures Valid() && out == old(out) + "0x" + PointerText(d, a)
      ensures pos == old(pos) + PointerRoom(old(pos), size) + |PointerText(d, a)|
    {
      PointerPrefix();
      if d.width == -1 {
        Number(Unsigned(a.num, TWO32), 16, 8, d.precision, d.fl.(zeropad := true));
      } else {
        Number(Unsigned(a.num, TWO32), 16, d.width, d.precision, d.fl);
      }
    }

    /** Cases 'd', 'i', 'u', 'o', 'x' and 'X'. */
    method ConvertInteger(c: char, d: Directive, a: Arg)
      requires Valid() && IsInteger(c)
      modifies this`pos, this`out, buf
      ensures Valid() && out == old(out) + IntegerText(c, d, a) && pos == old(pos) + |IntegerText(c, d, a)|
    {
      var fl, base := IntegerStyle(c, d.fl);
      NumArgRange(a, d.qual, fl.sign);
      Number(NumArg(a, d.qual, fl.sign), base, d.width, d.precision, fl);
    }

    /** One conversion; `stores` collects what %n would store. */
    method Conversion(c: char, d: Directive, args: seq<Arg>, stores0: seq<nat>) returns (stores: seq<nat>, k: nat)
      requires Valid()
      modifies this`pos, this`out, buf
      ensures Valid()
      ensures forall k0 ::
                Output(out, pos, stores, k) == Convert(c, d, args, Output(old(out), old(pos), stores0, k0), size)
    {
      var a := ArgAt(args, d.argi);
      stores, k := stores0, d.argi + 1;
      if c == 'c' {
        ConvertChar(d, a);
      } else if c == 's' {
        ConvertString(d, a);
      } else if c == 'p' {
        ConvertPointer(d, a);
      } else if c == 'n' {
        stores := stores + [pos];
      } else if IsInteger(c) {
        ConvertInteger(c, d, a);
      } else if c == '%' {
        Put('%');
        k := d.argi;
      } else {
        Print(['%', c]);
        k := d.argi;
      }
    }
  }

  /** The switch on the conversion character. */
  method IntegerStyle(c: char, fl0: Flags) returns (fl: Flags, base: nat)
    requires IsInteger(c)
    ensures fl == fl0.(sign := c == 'd' || c == 'i', large := c == 'X')
    ensures base == if c == 'o' then 8 else if c == 'x' || c == 'X' then 16 else 10
  {
    fl, base := fl0.(sign := false, large := false), 10;
    if c == 'o' {
      base := 8;
    } else if c == 'X' {
      fl, base := fl.(large := true), 16;
    } else if c == 'x' {
      base := 16;
    } else if c == 'd' || c == 'i' {
      fl := fl.(sign := true);
    }
  }

  lemma Assoc(a: string, b: string, c: string)
    ensures a + b + c == a + (b + c)
  {
  }

  lemma NumArgRange(a: Arg, qual: Qualifier, sign: bool)
    ensures -0x8000_0000_0000_0000 <= NumArg(a, qual, sign) < TWO64
  {
  }

  method SignOf(num: int, fl: Flags) returns (sign: string, n: nat)
    requires -0x8000_0000_0000_0000 <= num < TWO64
    ensures sign == SignText(num, fl) && n == Magnitude(num, fl) && n < TWO64
  {
    sign := "";
    var m := num;
    if fl.sign {
      if num < 0 {
        sign, m := "-", -num;
      } else if fl.plus {
        sign := "+";
      } else if fl.space {
        sign := " ";
      }
    }
    n := if m < 0 then m + TWO64 else m;  // do_div takes the 64 bits as an unsigned number
    MagnitudeBits(num, fl);
  }

  lemma LeftDropsZeros(num: int, base: nat, size: int, precision: int, fl0: Flags, fl: Flags)
    requires 2 <= base <= 36 && fl == if fl0.left then fl0.(zeropad := false) else fl0
    ensures NumberText(num, base, size, precision, fl0) == NumberText(num, base, size, precision, fl)
  {
    assert SignText(num, fl0) == SignText(num, fl) && Magnitude(num, fl0) == Magnitude(num, fl);
  }

  lemma Unit(o: string)
    ensures o + "" == o
  {
  }

  lemma Chain(o: string, a: string, b: string, c: string, d: string, e: string, f: string, g: string)
    ensures o + a + b + c + d + e + f + g == o + (a + b + c + d + e + f + g)
  {
    assert o + a + b == o + (a + b);
    assert o + (a + b) + c == o + (a + b + c);
    assert o + (a + b + c) + d == o + (a + b + c + d);
    assert o + (a + b + c + d) + e == o + (a + b + c + d + e);
    assert o + (a + b + c + d + e) + f == o + (a + b + c + d + e + f);
  }

  lemma MagnitudeBits(num: int, fl: Flags)
    requires -0x8000_0000_0000_0000 <= num < TWO64
    ensures Magnitude(num, fl) < TWO64
    ensures !(fl.sign && num < 0) ==> Magnitude(num, fl) == if num < 0 then num + TWO64 else num
  {
  }

  function Reverse(s: string): string { if s == [] then [] else Reverse(s[1..]) + [s[0]] }

  lemma {:induction false} ReverseSnoc(s: string, c: char)
    ensures Reverse(s + [c]) == [c] + Reverse(s)
  {
    if s != [] {
      assert (s + [c])[1..] == s[1..] + [c];
      ReverseSnoc(s[1..], c);
    }
  }

  lemma {:induction false} ReverseAt(s: string, k: nat)
    requires k < |s|
    ensures |Reverse(s)| == |s| && Reverse(s)[|s| - 1 - k] == s[k]
  {
    if |s| > 1 {
      ReverseAt(s[1..], if k == 0 then 0 else k - 1);
    }
  }

  lemma {:induction false} ReverseLength(s: string)
    ensures |Reverse(s)| == |s|
  {
    if s != [] { ReverseLength(s[1..]); }
  }

  /** The digit loop of number(): least significant digit first. */
  method FillDigits(tmp: array<char>, n0: nat, base: nat, large: bool) returns (i: nat)
    requires tmp.Length == 66 && 0 < n0 < TWO64 && 2 <= base <= 36 && |Numeral(n0, base, large)| <= 64
    modifies tmp
    ensures i <= 64 && Reverse(tmp[..i]) == Numeral(n0, base, large)
  {
    var n: nat := n0;
    i := 0;
    assert Reverse(tmp[..0]) == [];
    while n != 0
      invariant 0 <= i <= 64 && n < TWO64
      invariant Numeral(n0, base, large) == (if n == 0 then [] else Numeral(n, base, large)) + Reverse(tmp[..i])
      decreases n
    {
      ghost var s := tmp[..i];
      ReverseLength(s);
      Smaller(n, base);
      NumeralStep(n, base, large);
      var q, d := DoDiv(n, base);
      tmp[i] := DigitChar(d, large);
      assert tmp[..i + 1] == s + [DigitChar(d, large)];
      ReverseSnoc(s, DigitChar(d, large));
      Shift(n, base, large, Reverse(s));
      n := q;
      i := i + 1;
      ReverseLength(tmp[..i]);
    }
  }

  lemma Shift(n: nat, base: nat, large: bool, t: string)
    requires 2 <= base <= 36 && n > 0
    ensures n % base < 36
    ensures Numeral(n, base, large) + t ==
            (if n / base == 0 then [] else Numeral(n / base, base, large)) + ([DigitChar(n % base, large)] + t)
  {
    NumeralStep(n, base, large);
  }

  lemma NumeralStep(n: nat, base: nat, large: bool)
    requires 2 <= base <= 36 && n > 0
    ensures n % base < 36
    ensures n / base > 0 ==>
              n >= base && Numeral(n, base, large) == Numeral(n / base, base, large) + [DigitChar(n % base, large)]
    ensures n / base == 0 ==> Numeral(n, base, large) == [DigitChar(n % base, large)]
  {
    DivDef(n, base);
    if n < base { DivIs(n, base, 0, n); } else { QuotientPositive(n, base); }
  }

  method ReadOff(tmp: array<char>, m: nat) returns (digits: string)
    requires m <= tmp.Length
    ensures digits == Reverse(tmp[..m])
  {
    ghost var all := Reverse(tmp[..m]);
    ReverseLength(tmp[..m]);
    var i := m;
    digits := [];
    while i > 0
      invariant 0 <= i <= m && digits == all[..m - i]
    {
      i := i - 1;
      ReverseAt(tmp[..m], i);
      assert all[m - 1 - i] == tmp[i];
      digits := digits + [tmp[i]];
    }
  }

  /** number() fills tmp[66] backwards and prints it from the end. */
  method DigitsOf(n: nat, base: nat, large: bool) returns (digits: string)
    requires n < TWO64 && 2 <= base <= 36 && |Numeral(n, base, large)| <= 64
    ensures digits == Numeral(n, base, large)
  {
    var tmp := new char[66];
    var i := 1;
    if n == 0 {
      tmp[0] := '0';
      assert tmp[..1] == ['0'] && Reverse(['0']) == ['0'];
    } else {
      i := FillDigits(tmp, n, base, large);
    }
    digits := ReadOff(tmp, i);
  }

  // ----- reading a directive

  method ReadFlags(fmt: string, i0: nat) returns (fl: Flags, i: nat)
    requires i0 <= |fmt|
    ensures (fl, i) == FlagsFrom(fmt, i0, NoFlags)
  {
    fl, i := NoFlags, i0;
    while i < |fmt| && IsFlag(fmt[i])
      invariant i0 <= i <= |fmt| && FlagsFrom(fmt, i, fl) == FlagsFrom(fmt, i0, NoFlags)
    {
      fl := SetFlag(fl, fmt[i]);
      i := i + 1;
    }
  }

  method SkipAtoi(fmt: string, i0: nat) returns (n: nat, i: nat)
    requires i0 <= |fmt|
    ensures (n, i) == AtoiFrom(fmt, i0, 0)
  {
    n, i := 0, i0;
    while i < |fmt| && IsDigit(fmt[i])
      invariant i0 <= i <= |fmt| && AtoiFrom(fmt, i, n) == AtoiFrom(fmt, i0, 0)
    {
      n := n * 10 + (fmt[i] as int - '0' as int);
      i := i + 1;
    }
  }

  method ReadWidth(fmt: string, d0: Directive, args: seq<Arg>) returns (d: Directive)
    requires d0.at <= |fmt|
    ensures d == WidthAt(fmt, d0, args)
  {
    d := d0;
    if IsDigit(At(fmt, d.at)) {
      var n, i := SkipAtoi(fmt, d.at);
      d := d.(width := n, at := i);
    } else if At(fmt, d.at) == '*' {
      d := d.(width := Signed(ArgAt(args, d.argi).num, TWO32), at := d.at + 1, argi := d.argi + 1);
      if d.width < 0 {
        d := d.(width := -d.width, fl := d.fl.(left := true));
      }
    }
  }

  method ReadPrecision(fmt: string, d0: Directive, args: seq<Arg>) returns (d: Directive)
    requires d0.at <= |fmt| && d0.precision == -1
    ensures d == PrecisionAt(fmt, d0, args)
  {
    d := d0;
    if At(fmt, d.at) == '.' {
      d := d.(at := d.at + 1);
      if IsDigit(At(fmt, d.at)) {
        var n, i := SkipAtoi(fmt, d.at);
        d := d.(precision := n, at := i);
      } else if At(fmt, d.at) == '*' {
        d := d.(precision := Signed(ArgAt(args, d.argi).num, TWO32), at := d.at + 1, argi := d.argi + 1);
      }
      if d.precision < 0 {
        d := d.(precision := 0);
      }
    }
  }

  method ReadQualifier(fmt: string, d0: Directive) returns (d: Directive)
    requires d0.at <= |fmt| && d0.qual == NoQual
    ensures d == QualifierAt(fmt, d0)
  {
    d := d0;
    var c := At(fmt, d.at);
    if c == 'h' || c == 'l' || c == 'L' || c == 'Z' {
      d := d.(qual := if c == 'h' then Qh else if c == 'l' then Ql else if c == 'L' then QL else QZ, at := d.at + 1);
      if d.qual == Ql && At(fmt, d.at) == 'l' {
        d := d.(qual := QL, at := d.at + 1);
      }
    }
  }

  method ReadDirective(fmt: string, i: nat, args: seq<Arg>, k: nat) returns (d: Directive)
    requires i <= |fmt|
    ensures d == Parse(fmt, i, args, k)
  {
    var fl, at := ReadFlags(fmt, i);
    d := Directive(fl, -1, -1, NoQual, at, k);
    d := ReadWidth(fmt, d, args);
    d := ReadPrecision(fmt, d, args);
    d := ReadQualifier(fmt, d);
  }

  // ----- vsnprintf

  /** A size that runs past the end of the address space is cut there. */
  function EffectiveSize(addr: nat, size: nat): nat
    requires addr <= TWO32
  {
    if addr + size > TWO32 then TWO32 - addr else size
  }

  /** The computation of `end` in 32-bit pointers, and the overflow test on it. */
  method CutSize(addr: nat, size0: nat) returns (size: nat)
    requires 0 < addr < TWO32 && size0 < TWO32
    ensures size == EffectiveSize(addr, size0)
  {
    size := size0;
    var end := (addr + size + TWO32 - 1) % TWO32;
    if end < addr - 1 {
      end := TWO32 - 1;
      size := end - addr + 1;
    }
  }

  /** The loop of vsnprintf. */
  method Loop(sink: Sink, fmt: string, args: seq<Arg>) returns (stores: seq<nat>)
    requires sink.Valid() && sink.pos == 0 && sink.out == ""
    modifies sink`pos, sink`out, sink.buf
    ensures sink.Valid()
    ensures var r := Run(fmt, 0, args, Start, sink.size); sink.out == r.text && sink.pos == r.pos && stores == r.stores
  {
    var i, k := 0, 0;
    stores := [];
    while i < |fmt|
      invariant 0 <= i <= |fmt| && 0 <= k && sink.Valid()
      invariant Run(fmt, i, args, Output(sink.out, sink.pos, stores, k), sink.size) ==
                Run(fmt, 0, args, Start, sink.size)
      decreases |fmt| - i
    {
      if fmt[i] != '%' {
        sink.Put(fmt[i]);
        i := i + 1;
      } else {
        var d := ReadDirective(fmt, i + 1, args, k);
        if d.at == |fmt| {
          sink.Put('%');
          i, k := d.at, d.argi;
        } else {
          stores, k := sink.Conversion(fmt[d.at], d, args, stores);
          i := d.at + 1;
        }
      }
    }
  }

  lemma LengthFacts(fmt: string, args: seq<Arg>, size: nat)
    ensures var o, t := Run(fmt, 0, args, Start, size), Text(fmt, args);
            && o.text == t && o.pos <= |t| && (o.pos == |t| <==> PointersFit(fmt, 0, args, Start, size))
            && (HasNoPointer(fmt) ==> o.pos == |t|)
  {
    SizeDoesNotMatter(fmt, 0, args, Start, Start, size, 0);
    LengthExact(fmt, 0, args, Start, size);
    CursorBehind(fmt, 0, args, Start, size);
    if HasNoPointer(fmt) { NoPointerFits(fmt, 0, args, Start, size); }
  }

  lemma Pieces(fmt: string, args: seq<Arg>)
    ensures exists ps :: FormatGrammar.AllProper(ps) && FormatGrammar.RenderAll(ps) == fmt + "\0"
                         && FormatMeaning.Printed(ps, args, 0, Text(fmt, args) + "\0")
  {
    var ps := FormatMeaning.EveryFormat(fmt, args);
  }

  /** vsnprintf. `addr` is the address of the buffer; the format is a C string, so it holds no NUL. */
  method Vsnprintf(buf: array<char>, addr: nat, size0: nat, fmt: string, args: seq<Arg>)
    returns (ret: nat, stores: seq<nat>)
    requires 0 < addr < TWO32 && size0 < TWO32 && '\0' !in fmt
    requires EffectiveSize(addr, size0) <= buf.Length
    modifies buf
    ensures var size, t := EffectiveSize(addr, size0), Text(fmt, args);
            && (forall i :: size <= i < buf.Length ==> buf[i] == old(buf[i]))
            && (forall i :: 0 <= i < |t| && i + 1 < size ==> buf[i] == t[i])
            && (size > 0 ==> buf[if |t| < size then |t| else size - 1] == '\0')
            && ret == Run(fmt, 0, args, Start, size).pos && stores == Run(fmt, 0, args, Start, size).stores
            && ret <= |t|
            && (ret == |t| <==> PointersFit(fmt, 0, args, Start, size))
            && (HasNoPointer(fmt) ==> ret == |t|)
    ensures exists ps :: FormatGrammar.AllProper(ps) && FormatGrammar.RenderAll(ps) == fmt + "\0"
                         && FormatMeaning.Printed(ps, args, 0, Text(fmt, args) + "\0")
  {
    Pieces(fmt, args);
    var size := CutSize(addr, size0);
    var sink := new Sink(buf, size);
    stores := Loop(sink, fmt, args);
    LengthFacts(fmt, args, size);
    if sink.pos < size {
      buf[sink.pos] := '\0';
    } else if size > 0 {
      buf[size - 1] := '\0';
    }
    ret := sink.pos;
  }
}
