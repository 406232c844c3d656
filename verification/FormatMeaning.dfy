/** What the text of every directive is, in terms of its argument: which number, in which
    base, with which sign and prefix, and how it fills its field. */
module FormatMeaning {
  import opened Common
  import opened Digits
  import opened FormatSpec
  import opened FormatLaws
  import opened FormatGrammar

  // ----- machine integers

  /** v is x reduced to an integer of that many values: congruent to it and in range. */
  predicate Reduces(v: int, x: int, bound: int, signed: bool)
    requires bound > 0
  {
    (v - x) % bound == 0 && if signed then -bound <= 2 * v < bound else 0 <= v < bound
  }

  /** There is one such integer, and the casts of the code give it. */
  lemma ReducesOnce(v: int, x: int, bound: nat, signed: bool)
    requires bound in {0x100, 0x1_0000, TWO32, TWO64}
    ensures Reduces(v, x, bound, signed) <==> v == if signed then Signed(x, bound) else Unsigned(x, bound)
  {
    if bound == 0x100 { Reduces8(v, x); }
    else if bound == 0x1_0000 { Reduces16(v, x); }
    else if bound == TWO32 { Reduces32(v, x); }
    else { Reduces64(v, x); }
  }

  lemma Reduces8(v: int, x: int)
    ensures (v - x) % 0x100 == 0 && 0 - 0x100 <= 2 * v < 0x100 <==> v == Signed(x, 0x100)
    ensures (v - x) % 0x100 == 0 && 0 <= v < 0x100 <==> v == x % 0x100
  {
    Congruent8(v, x);
    if 0 <= v < 0x100 { assert v % 0x100 == v; }
    else if 0 - 0x100 <= v < 0 { assert v % 0x100 == v + 0x100; }
  }

  lemma Congruent8(v: int, x: int)
    ensures (v - x) % 0x100 == 0 <==> v % 0x100 == x % 0x100
  {
    if v % 0x100 == x % 0x100 { assert v - x == (v / 0x100 - x / 0x100) * 0x100; }
    if (v - x) % 0x100 == 0 { assert v == x + (v - x) / 0x100 * 0x100; }
  }

  lemma Reduces16(v: int, x: int)
    ensures (v - x) % 0x1_0000 == 0 && 0 - 0x1_0000 <= 2 * v < 0x1_0000 <==> v == Signed(x, 0x1_0000)
    ensures (v - x) % 0x1_0000 == 0 && 0 <= v < 0x1_0000 <==> v == x % 0x1_0000
  {
    Congruent16(v, x);
    if 0 <= v < 0x1_0000 { assert v % 0x1_0000 == v; }
    else if 0 - 0x1_0000 <= v < 0 { assert v % 0x1_0000 == v + 0x1_0000; }
  }

  lemma Congruent16(v: int, x: int)
    ensures (v - x) % 0x1_0000 == 0 <==> v % 0x1_0000 == x % 0x1_0000
  {
    if v % 0x1_0000 == x % 0x1_0000 { assert v - x == (v / 0x1_0000 - x / 0x1_0000) * 0x1_0000; }
    if (v - x) % 0x1_0000 == 0 { assert v == x + (v - x) / 0x1_0000 * 0x1_0000; }
  }

  lemma Reduces32(v: int, x: int)
    ensures (v - x) % TWO32 == 0 && 0 - TWO32 <= 2 * v < TWO32 <==> v == Signed(x, TWO32)
    ensures (v - x) % TWO32 == 0 && 0 <= v < TWO32 <==> v == x % TWO32
  {
    Congruent32(v, x);
    if 0 <= v < TWO32 { assert v % TWO32 == v; }
    else if 0 - TWO32 <= v < 0 { assert v % TWO32 == v + TWO32; }
  }

  lemma Congruent32(v: int, x: int)
    ensures (v - x) % TWO32 == 0 <==> v % TWO32 == x % TWO32
  {
    if v % TWO32 == x % TWO32 { assert v - x == (v / TWO32 - x / TWO32) * TWO32; }
    if (v - x) % TWO32 == 0 { assert v == x + (v - x) / TWO32 * TWO32; }
  }

  lemma Reduces64(v: int, x: int)
    ensures (v - x) % TWO64 == 0 && 0 - TWO64 <= 2 * v < TWO64 <==> v == Signed(x, TWO64)
    ensures (v - x) % TWO64 == 0 && 0 <= v < TWO64 <==> v == x % TWO64
  {
    Congruent64(v, x);
    if 0 <= v < TWO64 { assert v % TWO64 == v; }
    else if 0 - TWO64 <= v < 0 { assert v % TWO64 == v + TWO64; }
  }

  lemma Congruent64(v: int, x: int)
    ensures (v - x) % TWO64 == 0 <==> v % TWO64 == x % TWO64
  {
    if v % TWO64 == x % TWO64 { assert v - x == (v / TWO64 - x / TWO64) * TWO64; }
    if (v - x) % TWO64 == 0 { assert v == x + (v - x) / TWO64 * TWO64; }
  }

  // ----- fields

  predicate Blanks(s: string) { forall c :: c in s ==> c == ' ' }

  /** The text is the body, with blanks on one side up to the width. */
  predicate Fills(text: string, body: string, width: int, left: bool) {
    && |text| == (if width > |body| then width else |body|)
    && if left then text[..|body|] == body && Blanks(text[|body|..])
       else text[|text| - |body|..] == body && Blanks(text[..|text| - |body|])
  }

  lemma PadFills(fl: Flags, s: string, width: int)
    ensures Fills(Pad(fl, s, width - |s|), s, width, fl.left)
  {
    RepeatLength(' ', width - |s|);
    RepeatAll(' ', width - |s|);
    var b := Repeat(' ', width - |s|);
    assert (s + b)[|s|..] == b && (b + s)[..|b|] == b;
  }

  /** Digits of the base, in the letter case asked for. */
  predicate DigitsOf(s: string, base: nat, large: bool) {
    s != "" && forall c :: c in s ==>
      || ('0' <= c <= '9' && c as int - '0' as int < base)
      || (base == 16 && if large then 'A' <= c <= 'F' else 'a' <= c <= 'f')
  }

  /** The tables of number(), as far as its bases need them. */
  lemma DigitTables(d: nat)
    requires d < 16
    ensures DigitChar(d, false) == "0123456789abcdef"[d] && DigitChar(d, true) == "0123456789ABCDEF"[d]
    ensures DigitValue(DigitChar(d, false)) == DigitValue(DigitChar(d, true)) == d
  {
  }

  /** A number in its field: at least as many digits as the precision asks for; zeros in front only to reach
      the precision, or, where zeros are to fill the field, the width. */
  predicate Number(text: string, sign: string, prefix: string, digits: string, width: int, precision: int, fl: Flags) {
    var body, zeros := sign + prefix + digits, fl.zeropad && !fl.left;
    && Fills(text, body, width, fl.left) && |digits| >= precision && (zeros ==> |body| >= width)
    && (|digits| <= 1 || digits[0] != '0' || |digits| == precision || (zeros && |body| == width))
  }

  lemma LayoutIsNumber(sign: string, prefix: string, num: string, width: int, precision: int, fl: Flags)
    returns (k: nat)
    requires num != "" && (|num| == 1 || num[0] != '0')
    ensures Number(LayoutText(sign, prefix, num, width, precision, fl), sign, prefix, Repeat('0', k) + num, width,
                   precision, fl)
  {
    var prec := Max(precision, |num|);
    var pad := width - |sign| - |prefix| - prec;
    var z := if fl.zeropad && !fl.left && pad > 0 then pad else 0;
    k := z + (prec - |num|);
    var digits := Repeat('0', k) + num;
    var body := sign + prefix + digits;
    RepeatLength('0', k);
    assert |body| == |sign| + |prefix| + prec + z;
    LayoutIsPad(sign, prefix, num, width, precision, fl, prec, pad, z, digits);
    PadFills(fl, body, width);
    NumberFrom(LayoutText(sign, prefix, num, width, precision, fl), sign, prefix, num, digits, k, width, precision, fl);
  }

  lemma NumberFrom(text: string, sign: string, prefix: string, num: string, digits: string, k: nat, width: int,
                   precision: int, fl: Flags)
    requires num != "" && (|num| == 1 || num[0] != '0') && |digits| == k + |num| && (k == 0 ==> digits == num)
    requires Fills(text, sign + prefix + digits, width, fl.left)
    requires var prec := Max(precision, |num|);
             var pad := width - |sign| - |prefix| - prec;
             k == (if fl.zeropad && !fl.left && pad > 0 then pad else 0) + (prec - |num|)
    ensures Number(text, sign, prefix, digits, width, precision, fl)
  {
  }

  lemma LayoutIsPad(sign: string, prefix: string, num: string, width: int, precision: int, fl: Flags,
                    prec: int, pad: int, z: int, digits: string)
    requires prec == Max(precision, |num|) && pad == width - |sign| - |prefix| - prec
    requires z == if fl.zeropad && !fl.left && pad > 0 then pad else 0
    requires digits == Repeat('0', z + (prec - |num|)) + num
    ensures LayoutText(sign, prefix, num, width, precision, fl) == Pad(fl, sign + prefix + digits, pad - z)
  {
    var zeros, fill := if fl.zeropad && !fl.left then Repeat('0', pad) else "", Repeat('0', prec - |num|);
    RepeatJoin('0', z, prec - |num|);
    Join(zeros, fill, num);
    PadGlue(fl, sign, prefix, zeros, fill, num, Repeat(' ', pad), Repeat(' ', pad - z), digits);
  }

  lemma PadGlue(fl: Flags, sign: string, prefix: string, zeros: string, fill: string, num: string, blanks: string,
                rest: string, digits: string)
    requires digits == zeros + (fill + num) && rest == if fl.zeropad && !fl.left then "" else blanks
    ensures (if !fl.zeropad && !fl.left then blanks else "") + sign + prefix + zeros + fill + num
            + (if fl.left then blanks else "")
         == if fl.left then sign + prefix + digits + rest else rest + (sign + prefix + digits)
  {
    if fl.left {
      Regroup("", sign, prefix, zeros, fill, num, blanks);
    } else {
      Regroup(rest, sign, prefix, zeros, fill, num, "");
      assert rest + sign + prefix + digits + "" == rest + (sign + prefix + digits);
    }
  }

  lemma {:induction false} RepeatJoin(c: char, a: nat, b: nat)
    ensures Repeat(c, a + b) == Repeat(c, a) + Repeat(c, b)
    decreases a
  {
    if a > 0 { RepeatJoin(c, a - 1, b); }
  }

  /** What number() prints. */
  lemma NumberShape(num: int, base: nat, width: int, precision: int, fl: Flags) returns (digits: string)
    requires base in {8, 10, 16}
    ensures Number(NumberText(num, base, width, precision, fl), SignText(num, fl), PrefixText(base, fl), digits,
                   width, precision, fl)
    ensures DigitsOf(digits, base, fl.large) && ReadNumeral(digits, base) == Magnitude(num, fl)
  {
    var n := Numeral(Magnitude(num, fl), base, fl.large);
    NumeralNoLeadingZero(Magnitude(num, fl), base, fl.large);
    var k := LayoutIsNumber(SignText(num, fl), PrefixText(base, fl), n, width, precision, fl);
    digits := Repeat('0', k) + n;
    NumeralReadsBack(Magnitude(num, fl), base, fl.large);
    ZerosReadBack(k, n, base);
    NumeralDigits(Magnitude(num, fl), base, fl.large);
    RepeatAll('0', k);
    DigitsAre(Repeat('0', k), n, base, fl.large);
  }

  lemma DigitsAre(zeros: string, n: string, base: nat, large: bool)
    requires base in {8, 10, 16} && n != "" && (forall c :: c in zeros ==> c == '0')
    requires forall c :: c in n ==> BaseDigit(c, base, large)
    ensures DigitsOf(zeros + n, base, large)
  {
    forall c | c in zeros + n
      ensures || ('0' <= c <= '9' && c as int - '0' as int < base)
              || (base == 16 && if large then 'A' <= c <= 'F' else 'a' <= c <= 'f')
    {
      if c in n { assert BaseDigit(c, base, large); } else { assert c in zeros; }
    }
  }

  // ----- directives

  /** How many values an argument has, by the qualifier. */
  function Bound(q: Qualifier): int { match q case Qh => 0x1_0000 case QL => TWO64 case _ => TWO32 }

  predicate IsSigned(c: char) { c == 'd' || c == 'i' }

  function BaseOf(c: char): nat { if c == 'o' then 8 else if c == 'x' || c == 'X' then 16 else 10 }

  /** d, i, u, o, x, X: v is the argument in as many bits as the qualifier says, taken as signed for d and
      i, except with Z; its sign, then the prefix that '#' asks for, then digits that read back to |v|. */
  predicate IntegerAs(c: char, d: Directive, x: int, text: string, v: int, digits: string) {
    var sign :=
      if v < 0 then "-" else if !IsSigned(c) then "" else if d.fl.plus then "+" else if d.fl.space then " " else "";
    var prefix :=
      if !d.fl.special then "" else if c == 'o' then "0" else if c == 'x' then "0x" else if c == 'X' then "0X" else "";
    && Reduces(v, x, Bound(d.qual), IsSigned(c) && !d.qual.QZ?)
    && DigitsOf(digits, BaseOf(c), c == 'X') && ReadNumeral(digits, BaseOf(c)) == (if v < 0 then -v else v)
    && Number(text, sign, prefix, digits, d.width, d.precision, d.fl)
  }

  ghost predicate IntegerShown(c: char, d: Directive, x: int, text: string) {
    exists v, digits :: IntegerAs(c, d, x, text, v, digits)
  }

  /** p: "0x", then the address in hexadecimal, by default in eight digits at least. */
  predicate PointerAs(d: Directive, x: int, text: string, v: int, digits: string) {
    && |text| >= 2 && text[..2] == "0x" && Reduces(v, x, TWO32, false)
    && DigitsOf(digits, 16, false) && ReadNumeral(digits, 16) == v
    && Number(text[2..], "", if d.fl.special then "0x" else "", digits, if d.width == -1 then 8 else d.width,
              d.precision, d.fl.(zeropad := d.fl.zeropad || d.width == -1))
  }

  ghost predicate PointerShown(d: Directive, x: int, text: string) {
    exists v, digits :: PointerAs(d, x, text, v, digits)
  }

  /** s: as much of the string as the precision allows. */
  predicate StringShown(d: Directive, a: Arg, text: string) {
    var s := if a.str.NoString? then "<NULL>" else a.str.chars;
    Fills(text, if 0 <= d.precision < |s| then s[..d.precision] else s, d.width, d.fl.left)
  }

  /** c: the character whose code is the argument in eight bits. */
  predicate CharAs(d: Directive, x: int, text: string, ch: char) {
    Reduces(ch as int, x, 0x100, false) && Fills(text, [ch], d.width, d.fl.left)
  }

  ghost predicate CharShown(d: Directive, x: int, text: string) { exists ch :: CharAs(d, x, text, ch) }

  /** The text of conversion c with directive d and argument a. */
  ghost predicate Shown(c: char, d: Directive, a: Arg, text: string) {
    if c in {'d', 'i', 'u', 'o', 'x', 'X'} then IntegerShown(c, d, a.num, text)
    else if c == 'p' then PointerShown(d, a.num, text)
    else if c == 's' then StringShown(d, a, text)
    else if c == 'c' then CharShown(d, a.num, text)
    else text == if c == 'n' then "" else if c == '%' then "%" else ['%', c]
  }

  /** How many arguments it uses. */
  function Uses(c: char): nat { if c in {'d', 'i', 'u', 'o', 'x', 'X', 'p', 's', 'c', 'n'} then 1 else 0 }

  /** The value of an integer argument. */
  function ValueOf(c: char, q: Qualifier, x: int): int {
    if IsSigned(c) && !q.QZ? then Signed(x, Bound(q)) else Unsigned(x, Bound(q))
  }

  lemma ValueReduces(c: char, q: Qualifier, x: int)
    ensures Reduces(ValueOf(c, q, x), x, Bound(q), IsSigned(c) && !q.QZ?)
  {
    ReducesOnce(ValueOf(c, q, x), x, Bound(q), IsSigned(c) && !q.QZ?);
  }

  /** Sign and digits that number() prints are those of that value. */
  lemma ValuePrinted(c: char, q: Qualifier, a: Arg, fl: Flags)
    requires fl.sign == IsSigned(c)
    ensures var n, v := NumArg(a, q, fl.sign), ValueOf(c, q, a.num);
            Magnitude(n, fl) == (if v < 0 then -v else v) && (fl.sign ==> n == v) && (!fl.sign ==> v >= 0)
  {
    if q.QL? && !fl.sign { Back64(a.num); } else { InRange(NumArg(a, q, fl.sign)); }
  }

  lemma Back64(x: int)
    ensures Signed(x, TWO64) % TWO64 == x % TWO64
  {
  }

  lemma InRange(n: int)
    ensures 0 <= n < TWO64 ==> n % TWO64 == n
  {
  }

  /** A number in its field does not depend on sign and case flags. */
  lemma NumberFlags(text: string, sign: string, prefix: string, digits: string, width: int, precision: int, fl: Flags,
                    fl': Flags)
    requires fl.zeropad == fl'.zeropad && fl.left == fl'.left
    ensures Number(text, sign, prefix, digits, width, precision, fl) ==
            Number(text, sign, prefix, digits, width, precision, fl')
  {
  }

  lemma IntegerIs(c: char, d: Directive, a: Arg)
    requires IsInteger(c)
    ensures IntegerShown(c, d, a.num, IntegerText(c, d, a))
  {
    var fl := d.fl.(sign := c == 'd' || c == 'i', large := c == 'X');
    var n, v := NumArg(a, d.qual, fl.sign), ValueOf(c, d.qual, a.num);
    var digits := NumberShape(n, BaseOf(c), d.width, d.precision, fl);
    ValueReduces(c, d.qual, a.num);
    ValuePrinted(c, d.qual, a, fl);
    var text := IntegerText(c, d, a);
    NumberFlags(text, SignText(n, fl), PrefixText(BaseOf(c), fl), digits, d.width, d.precision, fl, d.fl);
    assert IntegerAs(c, d, a.num, text, v, digits);
  }

  lemma PointerIs(d: Directive, a: Arg)
    requires !d.fl.sign && !d.fl.large
    ensures PointerShown(d, a.num, "0x" + PointerText(d, a))
  {
    var v, w := Unsigned(a.num, TWO32), if d.width == -1 then 8 else d.width;
    var fl := d.fl.(zeropad := d.fl.zeropad || d.width == -1);
    ReducesOnce(v, a.num, TWO32, false);
    var digits := NumberShape(v, 16, w, d.precision, fl);
    InRange(v);
    var text := "0x" + PointerText(d, a);
    assert text[2..] == PointerText(d, a) == NumberText(v, 16, w, d.precision, fl);
    assert PointerAs(d, a.num, text, v, digits);
  }

  lemma CharIs(d: Directive, a: Arg)
    ensures CharShown(d, a.num, CharText(d, a))
  {
    var ch := Unsigned(a.num, 256) as char;
    ReducesOnce(ch as int, a.num, 0x100, false);
    PadFills(d.fl, [ch], d.width);
    assert CharAs(d, a.num, CharText(d, a), ch);
  }

  lemma StringIs(d: Directive, a: Arg)
    ensures StringShown(d, a, StringText(d, a))
  {
    var s := StringArg(a);
    PadFills(d.fl, if 0 <= d.precision < |s| then s[..d.precision] else s, d.width);
  }

  /** Every conversion, for every directive: what it adds to the text, how many arguments it uses, and that
      %n, and nothing else, stores the place in the buffer. */
  lemma ConvertShown(c: char, d: Directive, args: seq<Arg>, o: Output, size: nat) returns (text: string)
    requires !d.fl.sign && !d.fl.large
    ensures Convert(c, d, args, o, size).text == o.text + text && Shown(c, d, ArgAt(args, d.argi), text)
    ensures Convert(c, d, args, o, size).argi == d.argi + Uses(c)
    ensures Convert(c, d, args, o, size).stores == o.stores + if c == 'n' then [o.pos] else []
  {
    var a := ArgAt(args, d.argi);
    if IsInteger(c) {
      text := IntegerText(c, d, a);
      IntegerIs(c, d, a);
    } else if c == 'p' {
      text := "0x" + PointerText(d, a);
      PointerIs(d, a);
      Join(o.text, "0x", PointerText(d, a));
    } else if c == 's' {
      text := StringText(d, a);
      StringIs(d, a);
    } else if c == 'c' {
      text := CharText(d, a);
      CharIs(d, a);
    } else {
      text := if c == 'n' then "" else if c == '%' then "%" else ['%', c];
    }
  }

  // ----- formats

  /** The text is, piece by piece, what the pieces show, the arguments from number k on being used up. */
  ghost predicate Printed(ps: seq<Piece>, args: seq<Arg>, k: nat, text: string)
    decreases |ps|
  {
    if ps == [] then text == "" else
    match ps[0]
    case Literal(s) => s <= text && Printed(ps[1..], args, k, text[|s|..])
    case Conv(_, _, _, _, c) =>
      var d := Resolved(ps[0], args, k);
      exists n :: 0 <= n <= |text| && Shown(c, d, Nth(args, d.argi), text[..n])
                  && Printed(ps[1..], args, d.argi + Uses(c), text[n..])
  }

  lemma {:induction false} MeaningPrinted(ps: seq<Piece>, args: seq<Arg>, k: nat)
    ensures Printed(ps, args, k, Meaning(ps, args, k))
    decreases |ps|
  {
    if ps != [] {
      var text := Meaning(ps, args, k);
      if ps[0].Literal? {
        MeaningPrinted(ps[1..], args, k);
        Parts(text, ps[0].s, Meaning(ps[1..], args, k));
      } else {
        var t, j := PieceShown(ps[0], args, k);
        MeaningPrinted(ps[1..], args, j);
        Parts(text, t, Meaning(ps[1..], args, j));
      }
    }
  }

  lemma Parts(text: string, a: string, b: string)
    requires text == a + b
    ensures a <= text && text[..|a|] == a && text[|a|..] == b
  {
  }

  lemma PieceShown(p: Piece, args: seq<Arg>, k: nat) returns (t: string, j: nat)
    requires p.Conv?
    ensures var d := Resolved(p, args, k);
            && Shown(p.conv, d, Nth(args, d.argi), t) && j == d.argi + Uses(p.conv)
            && Convert(p.conv, d, args, Start, 0).text == t && Convert(p.conv, d, args, Start, 0).argi == j
  {
    var d := Resolved(p, args, k);
    t := ConvertShown(p.conv, d, args, Start, 0);
    j := d.argi + Uses(p.conv);
    assert "" + t == t;
  }

  /** For every format, ended by its NUL: it is a sequence of literals and directives, and what is printed
      is what they show, one after the other. */
  lemma EveryFormat(fmt: string, args: seq<Arg>) returns (ps: seq<Piece>)
    ensures AllProper(ps) && RenderAll(ps) == fmt + "\0"
    ensures Printed(ps, args, 0, Text(fmt, args) + "\0")
  {
    ps := Decompose(fmt + "\0");
    TextOfPieces(ps, args);
    MeaningPrinted(ps, args, 0);
    RunNul(fmt, 0, args, Start, 0);
  }
}
