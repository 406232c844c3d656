/** Formats as a sequence of literals and directives: what vsnprintf prints for a format
    is, piece by piece, what the pieces mean. */
module FormatGrammar {
  import opened Common
  import opened Digits
  import opened FormatSpec
  import FormatLaws

  /** A width or a precision: absent, given by digits in the format, or taken from an argument. */
  datatype Amount = Absent | Given(digits: string) | FromArg

  datatype Piece =
    | Literal(s: string)
    | Conv(flags: string, width: Amount, precision: Amount, qual: string, conv: char)

  predicate AllFlags(s: string) { forall c :: c in s ==> IsFlag(c) }

  predicate AllDigits(s: string) { forall c :: c in s ==> IsDigit(c) }

  /** Each part of a directive goes as far as it can: x is the first character after it. */
  predicate WidthOk(w: Amount, x: char) {
    match w
    case Absent => !IsDigit(x) && x != '*'
    case Given(s) => s != "" && AllDigits(s) && !IsDigit(x)
    case FromArg => true
  }

  predicate PrecisionOk(p: Amount, x: char) {
    match p
    case Absent => x != '.'
    case Given(s) => AllDigits(s) && !IsDigit(x) && (s == "" ==> x != '*')
    case FromArg => true
  }

  predicate QualOk(q: string, x: char) {
    q in {"", "h", "l", "ll", "L", "Z"} && (q == "" ==> x !in {'h', 'l', 'L', 'Z'}) && (q == "l" ==> x != 'l')
  }

  predicate Proper(p: Piece) {
    match p
    case Literal(s) => '%' !in s
    case Conv(f, w, pr, q, c) =>
      && AllFlags(f) && !IsFlag((WidthText(w) + PrecisionText(pr) + q + [c])[0])
      && WidthOk(w, (PrecisionText(pr) + q + [c])[0]) && PrecisionOk(pr, (q + [c])[0]) && QualOk(q, c)
  }

  predicate AllProper(ps: seq<Piece>) { ps == [] || (Proper(ps[0]) && AllProper(ps[1..])) }

  // ----- writing a format

  function WidthText(a: Amount): string {
    match a case Absent => "" case Given(s) => s case FromArg => "*"
  }

  function PrecisionText(a: Amount): string {
    match a case Absent => "" case Given(s) => "." + s case FromArg => ".*"
  }

  function Render(p: Piece): string {
    match p
    case Literal(s) => s
    case Conv(f, w, pr, q, c) => "%" + (f + (WidthText(w) + (PrecisionText(pr) + (q + [c]))))
  }

  function RenderAll(ps: seq<Piece>): string {
    if ps == [] then "" else Render(ps[0]) + RenderAll(ps[1..])
  }

  // ----- what it means

  function FlagsOf(s: string): Flags { Flags('0' in s, false, '+' in s, ' ' in s, '-' in s, '#' in s, false) }

  function QualOf(s: string): Qualifier {
    match s case "h" => Qh case "l" => Ql case "ll" => QL case "L" => QL case "Z" => QZ case _ => NoQual
  }

  /** The k-th argument; one that was not passed counts as zero. */
  function Nth(args: seq<Arg>, k: nat): Arg { if |args| <= k then Arg(0, NoString) else args[k] }

  function Wide(d: Directive, w: Amount, args: seq<Arg>): Directive {
    match w
    case Absent => d
    case Given(s) => d.(width := ReadNumeral(s, 10))
    case FromArg =>
      var v := Signed(Nth(args, d.argi).num, TWO32);
      d.(width := if v < 0 then -v else v, fl := d.fl.(left := d.fl.left || v < 0), argi := d.argi + 1)
  }

  function Precise(d: Directive, p: Amount, args: seq<Arg>): Directive {
    match p
    case Absent => d
    case Given(s) => d.(precision := ReadNumeral(s, 10))
    case FromArg =>
      var v := Signed(Nth(args, d.argi).num, TWO32);
      d.(precision := if v < 0 then 0 else v, argi := d.argi + 1)
  }

  /** The directive of a piece, up to its place in the format. */
  function Resolved(p: Piece, args: seq<Arg>, k: nat): Directive
    requires p.Conv?
  {
    Precise(Wide(Directive(FlagsOf(p.flags), -1, -1, QualOf(p.qual), 0, k), p.width, args), p.precision, args)
  }

  /** The text of the pieces, the arguments from number k on being used up from left to right. */
  function Meaning(ps: seq<Piece>, args: seq<Arg>, k: nat): string {
    if ps == [] then "" else
    match ps[0]
    case Literal(s) => s + Meaning(ps[1..], args, k)
    case Conv(_, _, _, _, c) =>
      var o := Convert(c, Resolved(ps[0], args, k), args, Start, 0);
      o.text + Meaning(ps[1..], args, o.argi)
  }

  // ----- reading it back

  /** How many characters of s the format has from place i on. */
  function Agree(fmt: string, i: nat, s: string): (n: nat)
    ensures n <= |s|
    decreases |s|
  {
    if s == "" || i >= |fmt| || fmt[i] != s[0] then 0 else 1 + Agree(fmt, i + 1, s[1..])
  }

  /** From place i on the format reads s. */
  predicate Suffix(fmt: string, i: nat, s: string) { i + |s| == |fmt| && Agree(fmt, i, s) == |s| }

  lemma {:induction false} SuffixIs(fmt: string, i: nat)
    requires i <= |fmt|
    ensures Suffix(fmt, i, fmt[i..])
    decreases |fmt| - i
  {
    if i < |fmt| {
      SuffixIs(fmt, i + 1);
      assert fmt[i..][1..] == fmt[i + 1..];
    }
  }

  lemma {:induction false} Advance(fmt: string, i: nat, a: string, b: string)
    requires Suffix(fmt, i, a + b)
    ensures i + |a| <= |fmt| && Suffix(fmt, i + |a|, b) && (a != "" ==> fmt[i] == a[0])
    decreases |a|
  {
    if a == "" { assert a + b == b; } else {
      assert (a + b)[1..] == a[1..] + b;
      Advance(fmt, i + 1, a[1..], b);
    }
  }

  function Fold(fl: Flags, s: string): Flags
    decreases |s|
  {
    if s == "" then fl else Fold(SetFlag(fl, s[0]), s[1..])
  }

  function Or(a: Flags, b: Flags): Flags {
    Flags(a.zeropad || b.zeropad, a.sign || b.sign, a.plus || b.plus, a.space || b.space, a.left || b.left,
          a.special || b.special, a.large || b.large)
  }

  /** Flags in any order, and any number of times. */
  lemma {:induction false} FoldFlags(fl: Flags, s: string)
    requires AllFlags(s)
    ensures Fold(fl, s) == Or(fl, FlagsOf(s))
    decreases |s|
  {
    if s != "" {
      assert s[0] in s;
      FoldFlags(SetFlag(fl, s[0]), s[1..]);
      FlagsCons(s);
      SetIsOr(fl, s[0]);
      OrAgain(fl, FlagsOf([s[0]]), FlagsOf(s[1..]));
    }
  }

  lemma OrAgain(a: Flags, b: Flags, c: Flags)
    ensures Or(Or(a, b), c) == Or(a, Or(b, c))
  {
  }

  lemma FlagsCons(s: string)
    requires s != ""
    ensures FlagsOf(s) == Or(FlagsOf([s[0]]), FlagsOf(s[1..]))
  {
    assert s == [s[0]] + s[1..];
    assert forall c :: c in s <==> c in [s[0]] || c in s[1..];
  }

  lemma SetIsOr(fl: Flags, c: char)
    requires IsFlag(c)
    ensures SetFlag(fl, c) == Or(fl, FlagsOf([c]))
  {
  }

  lemma {:induction false} FlagsOver(fmt: string, i: nat, s: string, r: string, fl: Flags)
    requires Suffix(fmt, i, s + r) && AllFlags(s) && r != "" && !IsFlag(r[0])
    ensures FlagsFrom(fmt, i, fl) == (Fold(fl, s), i + |s|)
    decreases |s|
  {
    Advance(fmt, i, s, r);
    if s != "" {
      assert s + r == [s[0]] + (s[1..] + r);
      Advance(fmt, i, [s[0]], s[1..] + r);
      assert s[0] in s;
      FlagsOver(fmt, i + 1, s[1..], r, SetFlag(fl, s[0]));
    }
  }

  lemma DecimalDigits(n: nat)
    ensures AllDigits(Numeral(n, 10, false))
  {
    NumeralDigits(n, 10, false);
    forall c | c in Numeral(n, 10, false) ensures IsDigit(c) { assert BaseDigit(c, 10, false); }
  }

  lemma {:induction false} AtoiOver(fmt: string, i: nat, s: string, r: string)
    requires Suffix(fmt, i, s + r) && AllDigits(s)
    ensures ReadNumeral(s, 10) >= 0
    ensures AtoiFrom(fmt, i, 0) == AtoiFrom(fmt, i + |s|, ReadNumeral(s, 10))
    decreases |s|
  {
    if s != "" {
      var a, c := s[..|s| - 1], s[|s| - 1];
      assert s + r == a + ([c] + r);
      assert c in s && IsDigit(c);
      AtoiOver(fmt, i, a, [c] + r);
      Advance(fmt, i, a, [c] + r);
      Advance(fmt, i + |a|, [c], r);
    }
  }

  /** skip_atoi reads all the digits there are. */
  lemma AtoiDigits(fmt: string, i: nat, s: string, r: string)
    requires Suffix(fmt, i, s + r) && AllDigits(s) && (r == "" || !IsDigit(r[0]))
    ensures ReadNumeral(s, 10) >= 0 && AtoiFrom(fmt, i, 0) == (ReadNumeral(s, 10), i + |s|)
  {
    AtoiOver(fmt, i, s, r);
    Advance(fmt, i, s, r);
  }

  /** So it reads back what the digit loop of number() prints. */
  lemma AtoiReadsBack(fmt: string, i: nat, n: nat, r: string)
    requires Suffix(fmt, i, Numeral(n, 10, false) + r) && (r == "" || !IsDigit(r[0]))
    ensures AtoiFrom(fmt, i, 0) == (n, i + |Numeral(n, 10, false)|)
  {
    DecimalDigits(n);
    NumeralReadsBack(n, 10, false);
    AtoiDigits(fmt, i, Numeral(n, 10, false), r);
  }

  // ----- a directive, part by part

  lemma QualReads(fmt: string, d: Directive, q: string, c: char, r: string)
    requires Suffix(fmt, d.at, q + ([c] + r)) && QualOk(q, c) && d.qual.NoQual?
    ensures QualifierAt(fmt, d) == d.(qual := QualOf(q), at := d.at + |q|)
  {
    Advance(fmt, d.at, q, [c] + r);
    Advance(fmt, d.at + |q|, [c], r);
    if q == "ll" {
      assert "l" + ("l" + ([c] + r)) == q + ([c] + r);
      Advance(fmt, d.at, "l", "l" + ([c] + r));
      Advance(fmt, d.at + 1, "l", [c] + r);
    }
  }

  lemma PrecisionReads(fmt: string, d: Directive, p: Amount, args: seq<Arg>, t: string)
    requires Suffix(fmt, d.at, PrecisionText(p) + t) && t != "" && PrecisionOk(p, t[0]) && d.precision == -1
    ensures PrecisionAt(fmt, d, args) == Precise(d, p, args).(at := d.at + |PrecisionText(p)|)
  {
    Advance(fmt, d.at, PrecisionText(p), t);
    if p.Given? {
      var s := p.digits;
      assert PrecisionText(p) + t == "." + (s + t);
      Advance(fmt, d.at, ".", s + t);
      Advance(fmt, d.at + 1, s, t);
      if s != "" { assert s[0] in s; }
      AtoiDigits(fmt, d.at + 1, s, t);
    } else if p.FromArg? {
      assert PrecisionText(p) + t == "." + ("*" + t);
      Advance(fmt, d.at, ".", "*" + t);
      Advance(fmt, d.at + 1, "*", t);
    }
  }

  lemma WidthReads(fmt: string, d: Directive, w: Amount, args: seq<Arg>, t: string)
    requires Suffix(fmt, d.at, WidthText(w) + t) && t != "" && WidthOk(w, t[0])
    ensures WidthAt(fmt, d, args) == Wide(d, w, args).(at := d.at + |WidthText(w)|)
  {
    Advance(fmt, d.at, WidthText(w), t);
    if w.Given? {
      assert w.digits[0] in w.digits;
      AtoiDigits(fmt, d.at, w.digits, t);
    }
  }

  /** The characters after flags, width and precision, when more follows. */
  lemma Firsts(p: Piece, r: string)
    requires p.Conv? && Proper(p)
    ensures var t := p.qual + ([p.conv] + r); var u := PrecisionText(p.precision) + t; var w := WidthText(p.width) + u;
            t != "" && PrecisionOk(p.precision, t[0]) && WidthOk(p.width, u[0]) && !IsFlag(w[0])
  {
    var t, x := p.qual + ([p.conv] + r), p.qual + [p.conv];
    assert t == x + r;
    var u, y := PrecisionText(p.precision) + t, PrecisionText(p.precision) + p.qual + [p.conv];
    assert u == y + r;
    assert WidthText(p.width) + u == WidthText(p.width) + PrecisionText(p.precision) + p.qual + [p.conv] + r;
  }

  /** Round trip: parsing a written directive gives it back, and stops at its conversion character. */
  lemma ParseRender(fmt: string, i: nat, p: Piece, args: seq<Arg>, k: nat, r: string)
    requires p.Conv? && Proper(p) && Suffix(fmt, i, Render(p) + r)
    ensures i + 1 <= |fmt| && Parse(fmt, i + 1, args, k) == Resolved(p, args, k).(at := i + 1 + TailLength(p))
  {
    TailPlace(fmt, i, p, r);
    ParseTail(fmt, i + 1, p, args, k, r);
  }

  /** Where that character is. */
  lemma PiecePlace(fmt: string, i: nat, p: Piece, r: string)
    requires p.Conv? && Suffix(fmt, i, Render(p) + r)
    ensures i + 1 <= |fmt| && fmt[i] == '%'
    ensures var at := i + 1 + TailLength(p); at < |fmt| && fmt[at] == p.conv && Suffix(fmt, at + 1, r)
  {
    TailPlace(fmt, i, p, r);
    EndPlace(fmt, i + 1, p, r);
  }

  /** A directive without its '%', and what follows it. */
  function Tail(p: Piece, r: string): string
    requires p.Conv?
  {
    p.flags + (WidthText(p.width) + (PrecisionText(p.precision) + (p.qual + ([p.conv] + r))))
  }

  function TailLength(p: Piece): nat
    requires p.Conv?
  {
    |p.flags| + |WidthText(p.width)| + |PrecisionText(p.precision)| + |p.qual|
  }

  lemma TailPlace(fmt: string, i: nat, p: Piece, r: string)
    requires p.Conv? && Suffix(fmt, i, Render(p) + r)
    ensures i + 1 <= |fmt| && fmt[i] == '%' && Suffix(fmt, i + 1, Tail(p, r))
  {
    Nest(p.flags, WidthText(p.width), PrecisionText(p.precision), p.qual, p.conv, r);
    Advance(fmt, i, "%", Tail(p, r));
  }

  lemma ParseTail(fmt: string, i: nat, p: Piece, args: seq<Arg>, k: nat, r: string)
    requires p.Conv? && Proper(p) && Suffix(fmt, i, Tail(p, r))
    ensures Parse(fmt, i, args, k) == Resolved(p, args, k).(at := i + TailLength(p))
  {
    QualPlace(fmt, i, p, args, k, r);
    Firsts(p, r);
    ParseAmounts(fmt, i, p, args, k, p.qual + ([p.conv] + r));
    QualReads(fmt, Amounts(p, args, k, i), p.qual, p.conv, r);
    ResolvedFrom(p, args, k, i);
  }

  /** A directive read up to its flags, and up to its precision. */
  function Begun(p: Piece, k: nat, i: nat): Directive
    requires p.Conv?
  {
    Directive(FlagsOf(p.flags), -1, -1, NoQual, i + |p.flags|, k)
  }

  function Amounts(p: Piece, args: seq<Arg>, k: nat, i: nat): Directive
    requires p.Conv?
  {
    Precise(Wide(Begun(p, k, i), p.width, args), p.precision, args).(
      at := i + |p.flags| + |WidthText(p.width)| + |PrecisionText(p.precision)|)
  }

  lemma ResolvedFrom(p: Piece, args: seq<Arg>, k: nat, i: nat)
    requires p.Conv?
    ensures var d := Amounts(p, args, k, i);
            && d.qual.NoQual?
            && d.(qual := QualOf(p.qual), at := d.at + |p.qual|) == Resolved(p, args, k).(at := i + TailLength(p))
  {
  }

  lemma ParseAmounts(fmt: string, i: nat, p: Piece, args: seq<Arg>, k: nat, t: string)
    requires p.Conv? && Proper(p)
    requires Suffix(fmt, i, p.flags + (WidthText(p.width) + (PrecisionText(p.precision) + t)))
    requires t != "" && PrecisionOk(p.precision, t[0]) && WidthOk(p.width, (PrecisionText(p.precision) + t)[0])
    requires !IsFlag((WidthText(p.width) + (PrecisionText(p.precision) + t))[0])
    ensures Parse(fmt, i, args, k) == QualifierAt(fmt, Amounts(p, args, k, i))
  {
    FlagsRead(fmt, i, p.flags, WidthText(p.width) + (PrecisionText(p.precision) + t));
    Advance(fmt, i, p.flags, WidthText(p.width) + (PrecisionText(p.precision) + t));
    AmountsRead(fmt, i, p, args, k, t);
    ParseIs(fmt, i, args, k, Begun(p, k, i), Amounts(p, args, k, i));
  }

  lemma ParseIs(fmt: string, i: nat, args: seq<Arg>, k: nat, d: Directive, d2: Directive)
    requires i <= |fmt| && FlagsFrom(fmt, i, NoFlags) == (d.fl, d.at)
    requires d == Directive(d.fl, -1, -1, NoQual, d.at, k) && PrecisionAt(fmt, WidthAt(fmt, d, args), args) == d2
    ensures Parse(fmt, i, args, k) == QualifierAt(fmt, d2)
  {
    var f := FlagsFrom(fmt, i, NoFlags);
    assert Directive(f.0, -1, -1, NoQual, f.1, k) == d;
  }

  lemma QualPlace(fmt: string, i: nat, p: Piece, args: seq<Arg>, k: nat, r: string)
    requires p.Conv? && Suffix(fmt, i, Tail(p, r))
    ensures Suffix(fmt, Amounts(p, args, k, i).at, p.qual + ([p.conv] + r))
  {
    Places(fmt, i, p.flags, WidthText(p.width), PrecisionText(p.precision), p.qual, p.conv, r);
  }

  lemma EndPlace(fmt: string, i: nat, p: Piece, r: string)
    requires p.Conv? && Suffix(fmt, i, Tail(p, r))
    ensures i + TailLength(p) < |fmt| && fmt[i + TailLength(p)] == p.conv && Suffix(fmt, i + TailLength(p) + 1, r)
  {
    Places(fmt, i, p.flags, WidthText(p.width), PrecisionText(p.precision), p.qual, p.conv, r);
  }

  lemma Places(fmt: string, i: nat, f: string, w: string, p: string, q: string, c: char, r: string)
    requires Suffix(fmt, i, f + (w + (p + (q + ([c] + r)))))
    ensures Suffix(fmt, i + |f|, w + (p + (q + ([c] + r))))
    ensures Suffix(fmt, i + |f| + |w| + |p|, q + ([c] + r))
    ensures var at := i + |f| + |w| + |p| + |q|; at < |fmt| && fmt[at] == c && Suffix(fmt, at + 1, r)
  {
    Advance(fmt, i, f, w + (p + (q + ([c] + r))));
    Advance(fmt, i + |f|, w, p + (q + ([c] + r)));
    Advance(fmt, i + |f| + |w|, p, q + ([c] + r));
    Advance(fmt, i + |f| + |w| + |p|, q, [c] + r);
    Advance(fmt, i + |f| + |w| + |p| + |q|, [c], r);
  }

  lemma FlagsRead(fmt: string, i: nat, f: string, t: string)
    requires AllFlags(f) && Suffix(fmt, i, f + t) && t != "" && !IsFlag(t[0])
    ensures FlagsFrom(fmt, i, NoFlags) == (FlagsOf(f), i + |f|)
  {
    FoldFlags(NoFlags, f);
    FlagsOver(fmt, i, f, t, NoFlags);
  }

  lemma AmountsRead(fmt: string, i: nat, p: Piece, args: seq<Arg>, k: nat, t: string)
    requires p.Conv? && Proper(p) && Suffix(fmt, i + |p.flags|, WidthText(p.width) + (PrecisionText(p.precision) + t))
    requires t != "" && PrecisionOk(p.precision, t[0]) && WidthOk(p.width, (PrecisionText(p.precision) + t)[0])
    ensures PrecisionAt(fmt, WidthAt(fmt, Begun(p, k, i), args), args) == Amounts(p, args, k, i)
  {
    var d, t2 := Begun(p, k, i), PrecisionText(p.precision) + t;
    WidthReads(fmt, d, p.width, args, t2);
    Advance(fmt, d.at, WidthText(p.width), t2);
    PrecisionReads(fmt, WidthAt(fmt, d, args), p.precision, args, t);
    PreciseAt(Wide(d, p.width, args), p.precision, args, d.at + |WidthText(p.width)|, Amounts(p, args, k, i).at);
  }

  lemma PreciseAt(d: Directive, p: Amount, args: seq<Arg>, x: nat, y: nat)
    ensures Precise(d.(at := x), p, args).(at := y) == Precise(d, p, args).(at := y)
  {
  }

  lemma Nest(f: string, w: string, p: string, q: string, c: char, r: string)
    ensures ("%" + (f + (w + (p + (q + [c]))))) + r == "%" + (f + (w + (p + (q + ([c] + r)))))
  {
    assert (q + [c]) + r == q + ([c] + r);
    assert (p + (q + [c])) + r == p + (q + ([c] + r));
    assert (w + (p + (q + [c]))) + r == w + (p + (q + ([c] + r)));
    assert (f + (w + (p + (q + [c])))) + r == f + (w + (p + (q + ([c] + r))));
  }

  // ----- whole formats

  lemma {:induction false} RunLiteral(fmt: string, i: nat, s: string, r: string, args: seq<Arg>, o: Output, size: nat)
    requires Suffix(fmt, i, s + r) && '%' !in s
    ensures i + |s| <= |fmt| && Run(fmt, i, args, o, size) == Run(fmt, i + |s|, args, Emit(o, s), size)
    decreases |s|
  {
    if s == "" {
      assert Emit(o, "") == o by { assert o.text + "" == o.text; }
    } else {
      assert s + r == [s[0]] + (s[1..] + r);
      Advance(fmt, i, [s[0]], s[1..] + r);
      assert s[0] in s;
      RunLiteral(fmt, i + 1, s[1..], r, args, Emit(o, [s[0]]), size);
      assert Emit(Emit(o, [s[0]]), s[1..]) == Emit(o, s) by {
        assert o.text + [s[0]] + s[1..] == o.text + s;
      }
    }
  }

  /** A conversion appends to what is there, whatever the place in format and buffer. */
  lemma ConvertAppends(c: char, d: Directive, args: seq<Arg>, o: Output, size: nat, at: nat)
    ensures var x, y := Convert(c, d, args, o, size), Convert(c, d.(at := at), args, Start, 0);
            x.text == o.text + y.text && x.argi == y.argi
  {
    ConvertAt(c, d, args, Start, 0, at);
    var a := ArgAt(args, d.argi);
    if c == 'p' { Join(o.text, "0x", PointerText(d, a)); }
    else if c == 'c' { Join("", CharText(d, a), ""); }
    else if c == 's' { Join("", StringText(d, a), ""); }
    else if c == 'n' { Join("", o.text, ""); }
    else if IsInteger(c) { Join("", IntegerText(c, d, a), ""); }
  }

  lemma Join(a: string, b: string, c: string)
    ensures a + b + c == a + (b + c) && b + "" == b && "" + b == b
  {
  }

  lemma ConvertAt(c: char, d: Directive, args: seq<Arg>, o: Output, size: nat, at: nat)
    ensures Convert(c, d.(at := at), args, o, size) == Convert(c, d, args, o, size)
  {
  }

  /** What is printed for written pieces is what they mean. */
  lemma {:induction false} RunPieces(fmt: string, i: nat, ps: seq<Piece>, args: seq<Arg>, o: Output, size: nat)
    requires AllProper(ps) && Suffix(fmt, i, RenderAll(ps))
    ensures Run(fmt, i, args, o, size).text == o.text + Meaning(ps, args, o.argi)
    decreases |ps|, 0
  {
    if ps == [] { assert o.text + "" == o.text; } else {
        if ps[0].Literal? { RunLit(fmt, i, ps, args, o, size); } else { RunConv(fmt, i, ps, args, o, size); }
    }
  }

  lemma {:induction false} RunLit(fmt: string, i: nat, ps: seq<Piece>, args: seq<Arg>, o: Output, size: nat)
    requires ps != [] && ps[0].Literal? && AllProper(ps) && Suffix(fmt, i, RenderAll(ps))
    ensures Run(fmt, i, args, o, size).text == o.text + Meaning(ps, args, o.argi)
    decreases |ps| - 1, 2
  {
    var s, rest, o1 := ps[0].s, ps[1..], Emit(o, ps[0].s);
    var j := i + |s|;
    LitStep(fmt, i, ps, args, o, size, s, rest, j, o1);
    RunPieces(fmt, j, rest, args, o1, size);
    Chain(Run(fmt, i, args, o, size).text, o.text, s, o1.text, Meaning(rest, args, o1.argi), Meaning(ps, args, o.argi));
  }

  lemma LitStep(fmt: string, i: nat, ps: seq<Piece>, args: seq<Arg>, o: Output, size: nat, s: string, rest: seq<Piece>,
                j: nat, o1: Output)
    requires ps != [] && ps[0].Literal? && AllProper(ps) && Suffix(fmt, i, RenderAll(ps))
    requires s == ps[0].s && rest == ps[1..] && j == i + |s| && o1 == Emit(o, s)
    ensures AllProper(rest) && i <= j <= |fmt| && Suffix(fmt, j, RenderAll(rest)) && o1.text == o.text + s
    ensures Run(fmt, i, args, o, size) == Run(fmt, j, args, o1, size)
    ensures Meaning(ps, args, o.argi) == s + Meaning(rest, args, o1.argi)
  {
    LiteralFirst(ps, args, o.argi);
    RunLiteral(fmt, i, s, RenderAll(rest), args, o, size);
    Advance(fmt, i, s, RenderAll(rest));
  }

  lemma LiteralFirst(ps: seq<Piece>, args: seq<Arg>, k: nat)
    requires ps != [] && ps[0].Literal? && AllProper(ps)
    ensures RenderAll(ps) == ps[0].s + RenderAll(ps[1..]) && '%' !in ps[0].s && AllProper(ps[1..])
    ensures Meaning(ps, args, k) == ps[0].s + Meaning(ps[1..], args, k)
  {
  }

  lemma {:induction false} RunConv(fmt: string, i: nat, ps: seq<Piece>, args: seq<Arg>, o: Output, size: nat)
    requires ps != [] && ps[0].Conv? && AllProper(ps) && Suffix(fmt, i, RenderAll(ps))
    ensures Run(fmt, i, args, o, size).text == o.text + Meaning(ps, args, o.argi)
    decreases |ps| - 1, 2
  {
    var j, d := i + 2 + TailLength(ps[0]), Resolved(ps[0], args, o.argi).(at := i + 1 + TailLength(ps[0]));
    var o1, s := ConvPart(ps, args, o, size, d);
    RunOn(fmt, i, j, ps, args, o1, size);
    RunFirst(fmt, i, ps, args, o, size, d, o1);
    Chain(Run(fmt, i, args, o, size).text, o.text, s, o1.text, Meaning(ps[1..], args, o1.argi),
          Meaning(ps, args, o.argi));
  }

  lemma Chain(x: string, a: string, s: string, b: string, c: string, m: string)
    requires b == a + s && x == b + c && m == s + c
    ensures x == a + m
  {
    Join(a, s, c);
  }

  lemma {:induction false} RunOn(fmt: string, i: nat, j: nat, ps: seq<Piece>, args: seq<Arg>, o: Output, size: nat)
    requires ps != [] && ps[0].Conv? && AllProper(ps) && Suffix(fmt, i, RenderAll(ps))
             && j == i + 2 + TailLength(ps[0])
    ensures j <= |fmt| && Run(fmt, j, args, o, size).text == o.text + Meaning(ps[1..], args, o.argi)
    decreases |ps| - 1, 1
  {
    PiecePlace(fmt, i, ps[0], RenderAll(ps[1..]));
    RunPieces(fmt, j, ps[1..], args, o, size);
  }

  lemma ParseFirst(fmt: string, i: nat, ps: seq<Piece>, args: seq<Arg>, k: nat, d: Directive)
    requires ps != [] && ps[0].Conv? && AllProper(ps) && Suffix(fmt, i, RenderAll(ps))
    requires d == Resolved(ps[0], args, k).(at := i + 1 + TailLength(ps[0]))
    ensures i < |fmt| && Parse(fmt, i + 1, args, k) == d
  {
    ParseRender(fmt, i, ps[0], args, k, RenderAll(ps[1..]));
  }

  lemma RunFirst(fmt: string, i: nat, ps: seq<Piece>, args: seq<Arg>, o: Output, size: nat, d: Directive, o1: Output)
    requires ps != [] && ps[0].Conv? && AllProper(ps) && Suffix(fmt, i, RenderAll(ps))
    requires d == Resolved(ps[0], args, o.argi).(at := i + 1 + TailLength(ps[0]))
    requires o1 == Convert(ps[0].conv, d, args, o, size)
    ensures i <= |fmt| && d.at + 1 <= |fmt| && Run(fmt, i, args, o, size) == Run(fmt, d.at + 1, args, o1, size)
  {
    ParseFirst(fmt, i, ps, args, o.argi, d);
    PlaceFirst(fmt, i, ps);
    RunStep(fmt, i, args, o, size, d, o1);
  }

  lemma PlaceFirst(fmt: string, i: nat, ps: seq<Piece>)
    requires ps != [] && ps[0].Conv? && Suffix(fmt, i, RenderAll(ps))
    ensures var at := i + 1 + TailLength(ps[0]); at < |fmt| && fmt[i] == '%' && fmt[at] == ps[0].conv
  {
    RenderFirst(ps);
    PiecePlace(fmt, i, ps[0], RenderAll(ps[1..]));
  }

  lemma RenderFirst(ps: seq<Piece>)
    requires ps != []
    ensures RenderAll(ps) == Render(ps[0]) + RenderAll(ps[1..])
  {
  }

  /** One directive of the format. */
  lemma RunStep(fmt: string, i: nat, args: seq<Arg>, o: Output, size: nat, d: Directive, o1: Output)
    requires i < |fmt| && fmt[i] == '%' && Parse(fmt, i + 1, args, o.argi) == d && d.at < |fmt|
    requires o1 == Convert(fmt[d.at], d, args, o, size)
    ensures Run(fmt, i, args, o, size) == Run(fmt, d.at + 1, args, o1, size)
  {
  }

  /** What one directive adds to the output is the first part of the meaning. */
  lemma ConvPart(ps: seq<Piece>, args: seq<Arg>, o: Output, size: nat, d: Directive) returns (o1: Output, s: string)
    requires ps != [] && ps[0].Conv? && d == Resolved(ps[0], args, o.argi).(at := d.at)
    ensures o1 == Convert(ps[0].conv, d, args, o, size) && o1.text == o.text + s
    ensures Meaning(ps, args, o.argi) == s + Meaning(ps[1..], args, o1.argi)
  {
    var p := ps[0];
    ResolvedAt(p, args, o.argi);
    assert d.(at := 0) == Resolved(p, args, o.argi);
    o1, s := Convert(p.conv, d, args, o, size), Convert(p.conv, d.(at := 0), args, Start, 0).text;
    ConvertAppends(p.conv, d, args, o, size, 0);
  }

  lemma ResolvedAt(p: Piece, args: seq<Arg>, k: nat)
    requires p.Conv?
    ensures Resolved(p, args, k).at == 0
  {
  }

  /** For every format that can be written from literals and directives, the text is the
      meaning of its pieces, one after the other. */
  lemma TextOfPieces(ps: seq<Piece>, args: seq<Arg>)
    requires AllProper(ps)
    ensures Text(RenderAll(ps), args) == Meaning(ps, args, 0)
  {
    var fmt := RenderAll(ps);
    assert fmt[0..] == fmt;
    SuffixIs(fmt, 0);
    RunPieces(fmt, 0, ps, args, Start, 0);
    assert "" + Meaning(ps, args, 0) == Meaning(ps, args, 0);
  }

  // ----- every format can be written so

  function Run0(s: string, flags: bool): (n: nat)
    ensures n <= |s| && (n < |s| ==> if flags then !IsFlag(s[n]) else !IsDigit(s[n]))
    ensures forall i :: 0 <= i < n ==> if flags then IsFlag(s[i]) else IsDigit(s[i])
  {
    if s != "" && (if flags then IsFlag(s[0]) else IsDigit(s[0])) then 1 + Run0(s[1..], flags) else 0
  }

  /** As the C code sees it: ended by a NUL, and with more to come. */
  predicate Ended(s: string) { s != "" && s[|s| - 1] == '\0' }

  lemma EndedTail(s: string, n: nat)
    requires Ended(s) && n < |s|
    ensures Ended(s[n..]) && s == s[..n] + s[n..]
  {
  }

  lemma SplitFlags(s: string) returns (f: string, r: string)
    requires Ended(s)
    ensures s == f + r && AllFlags(f) && Ended(r) && !IsFlag(r[0])
  {
    var n := Run0(s, true);
    EndedTail(s, n);
    f, r := s[..n], s[n..];
  }

  lemma SplitDigits(s: string) returns (f: string, r: string)
    requires Ended(s)
    ensures s == f + r && AllDigits(f) && Ended(r) && !IsDigit(r[0]) && (IsDigit(s[0]) ==> f != "")
  {
    var n := Run0(s, false);
    EndedTail(s, n);
    f, r := s[..n], s[n..];
  }

  lemma SplitWidth(s: string) returns (w: Amount, r: string)
    requires Ended(s)
    ensures s == WidthText(w) + r && Ended(r) && WidthOk(w, r[0])
  {
    if IsDigit(s[0]) {
      var f;
      f, r := SplitDigits(s);
      w := Given(f);
    } else if s[0] == '*' {
      EndedTail(s, 1);
      w, r := FromArg, s[1..];
    } else {
      w, r := Absent, s;
    }
  }

  lemma SplitPrecision(s: string) returns (p: Amount, r: string)
    requires Ended(s)
    ensures s == PrecisionText(p) + r && Ended(r) && PrecisionOk(p, r[0])
  {
    if s[0] != '.' {
      p, r := Absent, s;
    } else if s[1] == '*' {
      EndedTail(s, 2);
      p, r := FromArg, s[2..];
    } else {
      EndedTail(s, 1);
      var f;
      f, r := SplitDigits(s[1..]);
      p := Given(f);
      assert s == "." + (f + r) == "." + f + r;
    }
  }

  lemma SplitQual(s: string) returns (q: string, r: string)
    requires Ended(s)
    ensures s == q + r && Ended(r) && QualOk(q, r[0])
  {
    if s[0] !in {'h', 'l', 'L', 'Z'} {
      q, r := "", s;
    } else if s[0] == 'l' && s[1] == 'l' {
      EndedTail(s, 2);
      q, r := "ll", s[2..];
      assert s[..2] == q;
    } else {
      EndedTail(s, 1);
      q, r := [s[0]], s[1..];
      assert s[..1] == q;
    }
  }

  /** What follows a '%' is a directive and a rest. */
  lemma SplitDirective(s: string) returns (p: Piece, r: string)
    requires Ended(s)
    ensures p.Conv? && Proper(p) && "%" + s == Render(p) + r && (r == "" || Ended(r)) && |r| < |s|
  {
    var f, s1 := SplitFlags(s);
    var w, s2 := SplitWidth(s1);
    var pr, s3 := SplitPrecision(s2);
    var q, s4 := SplitQual(s3);
    r, p := s4[1..], Conv(f, w, pr, q, s4[0]);
    assert s4 == [s4[0]] + r;
    Nest(f, WidthText(w), PrecisionText(pr), q, s4[0], r);
    ProperFrom(f, w, pr, q, s4);
  }

  lemma ProperFrom(f: string, w: Amount, pr: Amount, q: string, t: string)
    requires t != "" && AllFlags(f) && QualOk(q, t[0]) && PrecisionOk(pr, (q + t)[0])
    requires var u := PrecisionText(pr) + (q + t); WidthOk(w, u[0]) && !IsFlag((WidthText(w) + u)[0])
    ensures Proper(Conv(f, w, pr, q, t[0]))
  {
    var a, b := WidthText(w), PrecisionText(pr);
    FirstOf(q, t);
    Join(b, q, t);
    FirstOf(b + q, t);
    assert a + (b + (q + t)) == a + b + q + t;
    FirstOf(a + b + q, t);
  }

  lemma FirstOf(a: string, b: string)
    requires b != ""
    ensures (a + [b[0]])[0] == (a + b)[0]
  {
  }

  lemma {:induction false} Decompose(s: string) returns (ps: seq<Piece>)
    requires s == "" || Ended(s)
    ensures AllProper(ps) && RenderAll(ps) == s
    decreases |s|
  {
    if s == "" {
      ps := [];
    } else if s[0] != '%' {
      var qs := Decompose(s[1..]);
      ps := [Literal([s[0]])] + qs;
      assert s == [s[0]] + s[1..] && ps[1..] == qs;
    } else {
      var p, r := SplitDirective(s[1..]);
      var qs := Decompose(r);
      ps := [p] + qs;
      assert s == "%" + s[1..] && ps[1..] == qs;
    }
  }

  // ----- the end of the format

  lemma {:induction false} FlagsNul(fmt: string, i: nat, fl: Flags)
    requires i <= |fmt|
    ensures FlagsFrom(fmt + "\0", i, fl) == FlagsFrom(fmt, i, fl)
    decreases |fmt| - i
  {
    if i < |fmt| && IsFlag(fmt[i]) { FlagsNul(fmt, i + 1, SetFlag(fl, fmt[i])); }
  }

  lemma {:induction false} AtoiNul(fmt: string, i: nat, n: nat)
    requires i <= |fmt|
    ensures AtoiFrom(fmt + "\0", i, n) == AtoiFrom(fmt, i, n)
    decreases |fmt| - i
  {
    if i < |fmt| && IsDigit(fmt[i]) { AtoiNul(fmt, i + 1, n * 10 + (fmt[i] as int - '0' as int)); }
  }

  /** A directive is read the same with the NUL behind the format. */
  lemma ParseNul(fmt: string, i: nat, args: seq<Arg>, k: nat)
    requires i <= |fmt|
    ensures Parse(fmt + "\0", i, args, k) == Parse(fmt, i, args, k)
  {
    var f := FlagsFrom(fmt, i, NoFlags);
    FlagsNul(fmt, i, NoFlags);
    var d0 := Directive(f.0, -1, -1, NoQual, f.1, k);
    AtoiNul(fmt, d0.at, 0);
    var d1 := WidthAt(fmt, d0, args);
    assert WidthAt(fmt + "\0", d0, args) == d1;
    if d1.at < |fmt| { AtoiNul(fmt, d1.at + 1, 0); }
    assert PrecisionAt(fmt + "\0", d1, args) == PrecisionAt(fmt, d1, args);
  }

  /** The NUL is printed as itself, also behind a directive that has no conversion: that one prints '%'. */
  lemma {:induction false} RunNul(fmt: string, i: nat, args: seq<Arg>, o: Output, size: nat)
    requires i <= |fmt|
    ensures Run(fmt + "\0", i, args, o, size).text == Run(fmt, i, args, o, size).text + "\0"
    decreases |fmt| - i
  {
    var fmt0 := fmt + "\0";
    if i == |fmt| {
      assert Run(fmt0, i + 1, args, Emit(o, ['\0']), size) == Emit(o, ['\0']);
    } else if fmt[i] != '%' {
      RunNul(fmt, i + 1, args, Emit(o, [fmt[i]]), size);
    } else {
      var d := Parse(fmt, i + 1, args, o.argi);
      ParseNul(fmt, i + 1, args, o.argi);
      if d.at < |fmt| {
        RunNul(fmt, d.at + 1, args, Convert(fmt[d.at], d, args, o, size), size);
      } else {
        var o1 := Convert('\0', d, args, o, size);
        assert fmt0[d.at] == '\0' && Run(fmt0, d.at + 1, args, o1, size) == o1;
        assert o1.text == o.text + "%\0" == o.text + "%" + "\0";
      }
    }
  }
}
