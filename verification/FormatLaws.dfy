/** What the output of a format is like, whatever the buffer. */
module FormatLaws {
  import opened Common
  import opened Digits
  import opened FormatSpec

  // ----- numbers

  lemma {:induction false} RepeatLength(c: char, n: int)
    ensures |Repeat(c, n)| == if n > 0 then n else 0
  {
    if n > 0 { RepeatLength(c, n - 1); }
  }

  /** Length of a converted number: the width, or what sign, prefix and digits need if that is more. */
  lemma NumberLength(num: int, base: nat, width: int, precision: int, fl: Flags)
    requires 2 <= base <= 36
    ensures |NumberText(num, base, width, precision, fl)| ==
            Max(width, |SignText(num, fl)| + |PrefixText(base, fl)|
                       + Max(precision, |Numeral(Magnitude(num, fl), base, fl.large)|))
  {
    var sign, prefix, digits := SignText(num, fl), PrefixText(base, fl), Numeral(Magnitude(num, fl), base, fl.large);
    var prec := Max(precision, |digits|);
    RepeatLength(' ', width - |sign| - |prefix| - prec);
    RepeatLength('0', width - |sign| - |prefix| - prec);
    RepeatLength('0', prec - |digits|);
  }

  lemma {:induction false} DigitsFit(n: nat, base: nat, large: bool, bits: nat)
    requires 2 <= base <= 36 && n < Pow2(bits) && bits >= 1
    ensures |Numeral(n, base, large)| <= bits
    decreases bits
  {
    if n >= base {
      Smaller(n, base);
      DigitsFit(n / base, base, large, bits - 1);
    }
  }

  lemma {:induction false} Pow2Sum(a: nat, b: nat)
    ensures Pow2(a + b) == Pow2(a) * Pow2(b)
    decreases b
  {
    if b > 0 {
      Pow2Sum(a, b - 1);
      assert Pow2(a + b) == 2 * Pow2(a + (b - 1));
    } else {
      assert Pow2(a) * 1 == Pow2(a);
    }
  }

  lemma Pow2SixtyFour()
    ensures Pow2(64) == TWO64
  {
    assert Pow2(4) == 16 by { assert Pow2(2) == 4; }
    assert Pow2(8) == 0x100 by { Pow2Sum(4, 4); }
    assert Pow2(16) == 0x1_0000 by { Pow2Sum(8, 8); }
    assert Pow2(32) == TWO32 by { Pow2Sum(16, 16); }
    Pow2Sum(32, 32);
  }

  /** No value needs more than 64 digits, so the 66 characters of the scratch buffer suffice. */
  lemma ScratchSuffices(num: int, base: nat, fl: Flags)
    requires 2 <= base <= 36 && -0x8000_0000_0000_0000 <= num < TWO64
    ensures |Numeral(Magnitude(num, fl), base, fl.large)| <= 64
  {
    Pow2SixtyFour();
    DigitsFit(Magnitude(num, fl), base, fl.large, 64);
  }

  lemma {:induction false} ZerosReadBack(n: int, s: string, base: nat)
    ensures ReadNumeral(Repeat('0', n) + s, base) == ReadNumeral(s, base)
    decreases |s|, n
  {
    var t := Repeat('0', n) + s;
    if s != [] {
      assert t[..|t| - 1] == Repeat('0', n) + s[..|s| - 1];
      ZerosReadBack(n, s[..|s| - 1], base);
    } else if n > 0 {
      RepeatSnoc('0', n);
      assert t[..|t| - 1] == Repeat('0', n - 1) + [];
      ZerosReadBack(n - 1, [], base);
      assert t[|t| - 1] == '0';
      assert ReadNumeral(t[..|t| - 1], base) == 0;
      assert 0 * base == 0;
    }
  }

  lemma {:induction false} RepeatSnoc(c: char, n: int)
    requires n > 0
    ensures Repeat(c, n) == Repeat(c, n - 1) + [c]
  {
    if n > 1 { RepeatSnoc(c, n - 1); }
  }

  /** The printed number is the value: sign, prefix, then digits, leading zeros included, that read back to its
      magnitude. */
  lemma NumberReadsBack(num: int, base: nat, width: int, precision: int, fl: Flags)
    returns (lead: string, digits: string, trail: string)
    requires 2 <= base <= 36
    ensures NumberText(num, base, width, precision, fl) ==
              lead + SignText(num, fl) + PrefixText(base, fl) + digits + trail
    ensures ReadNumeral(digits, base) == Magnitude(num, fl) && forall c :: c in digits ==> BaseDigit(c, base, fl.large)
    ensures (lead == "" || trail == "") && (fl.left ==> lead == "") && (!fl.left ==> trail == "")
    ensures forall c :: c in lead + trail ==> c == ' '
  {
    var sign, prefix, num' := SignText(num, fl), PrefixText(base, fl), Numeral(Magnitude(num, fl), base, fl.large);
    var zeros, fill;
    lead, zeros, fill, trail := LayoutParts(sign, prefix, num', width, precision, fl);
    digits := Repeat('0', zeros) + (Repeat('0', fill) + num');
    NumeralReadsBack(Magnitude(num, fl), base, fl.large);
    ZerosReadBack(fill, num', base);
    ZerosReadBack(zeros, Repeat('0', fill) + num', base);
    NumeralDigits(Magnitude(num, fl), base, fl.large);
    RepeatAll('0', zeros);
    RepeatAll('0', fill);
    DigitIsDigit(0, base, fl.large);
    Regroup(lead, sign, prefix, Repeat('0', zeros), Repeat('0', fill), num', trail);
  }

  /** What is laid out around a number: blanks on one side at most, zeros between prefix and digits. */
  lemma LayoutParts(sign: string, prefix: string, num: string, width: int, precision: int, fl: Flags)
    returns (lead: string, zeros: int, fill: int, trail: string)
    ensures LayoutText(sign, prefix, num, width, precision, fl)
         == lead + sign + prefix + Repeat('0', zeros) + Repeat('0', fill) + num + trail
    ensures (lead == "" || trail == "") && (fl.left ==> lead == "") && (!fl.left ==> trail == "")
    ensures forall c :: c in lead + trail ==> c == ' '
  {
    fill := Max(precision, |num|) - |num|;
    var pad := width - |sign| - |prefix| - fill - |num|;
    lead := if !fl.zeropad && !fl.left then Repeat(' ', pad) else "";
    trail := if fl.left then Repeat(' ', pad) else "";
    zeros := if fl.zeropad && !fl.left then pad else 0;
    RepeatAll(' ', pad);
  }

  lemma Regroup(a: string, b: string, c: string, d: string, e: string, f: string, g: string)
    ensures a + b + c + d + e + f + g == a + b + c + (d + (e + f)) + g
  {
    assert a + b + c + d + e + f == a + b + c + (d + (e + f));
  }

  lemma {:induction false} RepeatAll(c: char, n: int)
    ensures forall x :: x in Repeat(c, n) ==> x == c
  {
    if n > 0 { RepeatAll(c, n - 1); }
  }

  // ----- the buffer size does not change the text

  lemma ConvertSame(c: char, d: Directive, args: seq<Arg>, o: Output, o': Output, size: nat, size': nat)
    requires o.text == o'.text
    ensures Convert(c, d, args, o, size).text == Convert(c, d, args, o', size').text
    ensures Convert(c, d, args, o, size).argi == Convert(c, d, args, o', size').argi
  {
  }

  /** Whatever the size, the text that vsnprintf works through is the same. */
  lemma {:induction false} SizeDoesNotMatter(fmt: string, i: nat, args: seq<Arg>, o: Output, o': Output, size: nat,
                                             size': nat)
    requires i <= |fmt| && o.text == o'.text && o.argi == o'.argi
    ensures Run(fmt, i, args, o, size).text == Run(fmt, i, args, o', size').text
    decreases |fmt| - i
  {
    if i < |fmt| {
      if fmt[i] != '%' {
        SizeDoesNotMatter(fmt, i + 1, args, Emit(o, [fmt[i]]), Emit(o', [fmt[i]]), size, size');
      } else {
        var d := Parse(fmt, i + 1, args, o.argi);
        if d.at < |fmt| {
          var c := fmt[d.at];
          ConvertSame(c, d, args, o, o', size, size');
          SizeDoesNotMatter(fmt, d.at + 1, args, Convert(c, d, args, o, size), Convert(c, d, args, o', size'), size,
                            size');
        }
      }
    }
  }

  // ----- the value returned

  /** Every %p from place i on comes at least three characters before the end of the buffer. */
  predicate PointersFit(fmt: string, i: nat, args: seq<Arg>, o: Output, size: nat)
    requires i <= |fmt|
    decreases |fmt| - i
  {
    if i == |fmt| then true
    else if fmt[i] != '%' then PointersFit(fmt, i + 1, args, Emit(o, [fmt[i]]), size)
    else
      var d := Parse(fmt, i + 1, args, o.argi);
      d.at < |fmt| ==>
        && (fmt[d.at] == 'p' ==> |o.text| + 2 < size)
        && PointersFit(fmt, d.at + 1, args, Convert(fmt[d.at], d, args, o, size), size)
  }

  /** The cursor never passes the text, and once behind stays behind. */
  lemma {:induction false} CursorBehind(fmt: string, i: nat, args: seq<Arg>, o: Output, size: nat)
    requires i <= |fmt| && o.pos <= |o.text|
    ensures var r := Run(fmt, i, args, o, size); r.pos <= |r.text|
    ensures var r := Run(fmt, i, args, o, size); o.pos < |o.text| ==> r.pos < |r.text|
    decreases |fmt| - i
  {
    if i < |fmt| {
      if fmt[i] != '%' {
        CursorBehind(fmt, i + 1, args, Emit(o, [fmt[i]]), size);
      } else {
        var d := Parse(fmt, i + 1, args, o.argi);
        if d.at < |fmt| { CursorBehind(fmt, d.at + 1, args, Convert(fmt[d.at], d, args, o, size), size); }
      }
    }
  }

  lemma ConvertCursor(c: char, d: Directive, args: seq<Arg>, o: Output, size: nat)
    requires o.pos == |o.text|
    ensures var r := Convert(c, d, args, o, size);
            r.pos <= |r.text| && (r.pos == |r.text| <==> (c == 'p' ==> |o.text| + 2 < size))
  {
  }

  /** The returned length is that of the whole text if and only if no %p meets the end of the buffer. */
  lemma {:induction false} LengthExact(fmt: string, i: nat, args: seq<Arg>, o: Output, size: nat)
    requires i <= |fmt| && o.pos == |o.text|
    ensures Exact(Run(fmt, i, args, o, size)) <==> PointersFit(fmt, i, args, o, size)
    decreases |fmt| - i, 1
  {
    if i < |fmt| {
      if fmt[i] != '%' { LengthExact(fmt, i + 1, args, Emit(o, [fmt[i]]), size); }
      else { LengthConv(fmt, i, args, o, size); }
    }
  }

  lemma {:induction false} LengthConv(fmt: string, i: nat, args: seq<Arg>, o: Output, size: nat)
    requires i < |fmt| && fmt[i] == '%' && o.pos == |o.text|
    ensures Exact(Run(fmt, i, args, o, size)) <==> PointersFit(fmt, i, args, o, size)
    decreases |fmt| - i, 0
  {
    var d := Parse(fmt, i + 1, args, o.argi);
    if d.at < |fmt| {
      var c, o1 := fmt[d.at], Convert(fmt[d.at], d, args, o, size);
      LengthStep(fmt, d.at, args, o, o1, size, c, d);
      if Exact(o1) { LengthExact(fmt, d.at + 1, args, o1, size); }
      FitsStep(fmt, i, args, o, size, d, c, o1);
    }
  }

  lemma FitsStep(fmt: string, i: nat, args: seq<Arg>, o: Output, size: nat, d: Directive, c: char, o1: Output)
    requires i < |fmt| && fmt[i] == '%' && d == Parse(fmt, i + 1, args, o.argi) && d.at < |fmt| && c == fmt[d.at]
    requires o1 == Convert(c, d, args, o, size)
    ensures Run(fmt, i, args, o, size) == Run(fmt, d.at + 1, args, o1, size)
    ensures PointersFit(fmt, i, args, o, size) <==>
              (c == 'p' ==> |o.text| + 2 < size) && PointersFit(fmt, d.at + 1, args, o1, size)
  {
  }

  predicate Exact(o: Output) { o.pos == |o.text| }

  lemma LengthStep(fmt: string, at: nat, args: seq<Arg>, o: Output, o1: Output, size: nat, c: char, d: Directive)
    requires at < |fmt| && Exact(o) && o1 == Convert(c, d, args, o, size)
    ensures Exact(o1) <==> (c == 'p' ==> |o.text| + 2 < size)
    ensures !Exact(o1) ==> !Exact(Run(fmt, at + 1, args, o1, size))
  {
    ConvertCursor(c, d, args, o, size);
    if !Exact(o1) { CursorBehind(fmt, at + 1, args, o1, size); }
  }

  predicate HasNoPointer(fmt: string) { 'p' !in fmt }

  /** In particular it is exact when the format has no 'p' at all. */
  lemma {:induction false} NoPointerFits(fmt: string, i: nat, args: seq<Arg>, o: Output, size: nat)
    requires i <= |fmt| && HasNoPointer(fmt)
    ensures PointersFit(fmt, i, args, o, size)
    decreases |fmt| - i
  {
    if i < |fmt| {
      if fmt[i] != '%' {
        NoPointerFits(fmt, i + 1, args, Emit(o, [fmt[i]]), size);
      } else {
        var d := Parse(fmt, i + 1, args, o.argi);
        if d.at < |fmt| {
          assert fmt[d.at] in fmt;
          NoPointerFits(fmt, d.at + 1, args, Convert(fmt[d.at], d, args, o, size), size);
        }
      }
    }
  }

  /** A length that is too short: "%p" into two bytes returns 9 though ten characters are due. */
  lemma PointerMeetsEnd()
    ensures var r := Run("%p", 0, [Arg(0, NoString)], Start, 2); r.pos == 9 && |r.text| == 10
  {
    var d := Parse("%p", 1, [Arg(0, NoString)], 0);
    assert d == Directive(NoFlags, -1, -1, NoQual, 1, 0);
    NumberLength(0, 16, 8, -1, NoFlags.(zeropad := true));
    assert |PointerText(d, Arg(0, NoString))| == 8;
  }
}
