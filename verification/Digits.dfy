/** include/arch-ia32/div64.h and the digit loop of kernel/vsprintf.c. */
module Digits {
  import opened Common

  const TWO64: nat := 0x1_0000_0000_0000_0000

  lemma DivIs(n: nat, d: nat, q: nat, r: nat)
    requires d > 0 && n == d * q + r && r < d
    ensures n / d == q && n % d == r
  {
    var q', r' := n / d, n % d;
    assert n == d * q' + r';
    var e := q - q';
    Distribute(d, q, q');
    assert d * e == r' - r;
    if e >= 1 { MulAtLeast(d, e); }
    if e <= -1 { MulAtLeast(d, -e); Distribute(d, 0, e); }
  }

  lemma MulAtLeast(d: nat, e: int)
    requires e >= 1
    ensures d * e >= d
  {
  }

  lemma Distribute(d: int, a: int, b: int)
    ensures d * (a - b) == d * a - d * b
  {
  }

  lemma DivDef(n: nat, d: nat)
    requires d > 0
    ensures n == d * (n / d) + n % d && n % d < d
  {
  }

  /** The divl instruction: a 64-bit dividend in two halves; it faults unless the quotient fits 32 bits. */
  method Divl(upper: nat, low: nat, base: nat) returns (q: nat, r: nat)
    requires 0 < base < TWO32 && low < TWO32
    requires (upper * TWO32 + low) / base < TWO32
    ensures q < TWO32 && r < base && upper * TWO32 + low == base * q + r
  {
    var n := upper * TWO32 + low;
    DivDef(n, base);
    q, r := n / base, n % base;
  }

  lemma QuotientFits(upper: nat, low: nat, base: nat)
    requires 0 < base && upper < base && low < TWO32
    ensures (upper * TWO32 + low) / base < TWO32
  {
    var n := upper * TWO32 + low;
    DivDef(n, base);
    TooBig(base, n / base, upper, low);
  }

  lemma TooBig(base: nat, q: nat, upper: nat, low: nat)
    requires upper < base && low < TWO32
    ensures base * q <= upper * TWO32 + low ==> q < TWO32
  {
    if q >= TWO32 {
      Distribute(base, q, TWO32);
      if q > TWO32 { MulAtLeast(base, q - TWO32); }
      assert base * q >= base * TWO32;
    }
  }

  /** do_div: quotient and remainder of a 64-bit number by a 32-bit one, in two 32-bit steps. */
  method DoDiv(n: nat, base: nat) returns (quotient: nat, mod: nat)
    requires n < TWO64 && 0 < base < TWO32
    ensures quotient == n / base && mod == n % base
  {
    var low, high := n % TWO32, n / TWO32;
    var upper := high;
    HighHalf(high, base);
    if high != 0 {
      upper := high % base;
      high := high / base;
    }
    ghost var low0 := low;
    QuotientFits(upper, low, base);
    low, mod := Divl(upper, low, base);
    quotient := high * TWO32 + low;
    TwoSteps(n, base, high, upper, low0, low, mod);
  }

  lemma HighHalf(high: nat, base: nat)
    requires base > 0
    ensures high != 0 ==> high == base * (high / base) + high % base && high % base < base
    ensures high == 0 ==> high == base * high + high
  {
    DivDef(high, base);
  }

  lemma TwoSteps(n: nat, base: nat, high: nat, upper: nat, low: nat, q: nat, r: nat)
    requires base > 0 && n / TWO32 == base * high + upper && n % TWO32 == low
    requires upper * TWO32 + low == base * q + r && r < base
    ensures high * TWO32 + q == n / base && r == n % base
  {
    Recombine(base, high, upper, low, q, r, n);
    DivIs(n, base, high * TWO32 + q, r);
  }

  lemma Recombine(base: nat, high: nat, upper: nat, low: nat, q: nat, r: nat, n: nat)
    requires n == (base * high + upper) * TWO32 + low && upper * TWO32 + low == base * q + r
    ensures n == base * (high * TWO32 + q) + r
  {
    Spread(base, high, q);
  }

  lemma Spread(b: nat, h: nat, q: nat)
    ensures b * (h * TWO32 + q) == (b * h) * TWO32 + b * q
  {
  }

  // ----- digit strings

  /** The digits of the tables in number(). */
  function DigitChar(d: nat, large: bool): char
    requires d < 36
  {
    if d < 10 then '0' + d as char else if large then 'A' + (d - 10) as char else 'a' + (d - 10) as char
  }

  function DigitValue(c: char): int {
    if '0' <= c <= '9' then c as int - '0' as int
    else if 'a' <= c <= 'z' then c as int - 'a' as int + 10
    else c as int - 'A' as int + 10
  }

  /** n in the given base, most significant digit first. */
  function Numeral(n: nat, base: nat, large: bool): (s: string)
    requires 2 <= base <= 36
    ensures s != []
    decreases n
  {
    if n < base then [DigitChar(n, large)] else
    Smaller(n, base); Numeral(n / base, base, large) + [DigitChar(n % base, large)]
  }

  lemma Smaller(n: nat, base: nat)
    requires 2 <= base
    ensures 2 * (n / base) <= n && (n >= base ==> n / base < n)
  {
    var q := n / base;
    assert n == base * q + n % base;
    assert base * q >= 2 * q;
  }

  /** Reads a digit string back. */
  function ReadNumeral(s: string, base: nat): int {
    if s == [] then 0 else ReadNumeral(s[..|s| - 1], base) * base + DigitValue(s[|s| - 1])
  }

  lemma DigitReadsBack(d: nat, large: bool)
    requires d < 36
    ensures DigitValue(DigitChar(d, large)) == d
  {
  }

  /** c is a digit of the base, in the letter case asked for. */
  predicate BaseDigit(c: char, base: nat, large: bool) {
    2 <= base <= 36 && 0 <= DigitValue(c) < base && c == DigitChar(DigitValue(c), large)
  }

  lemma DigitIsDigit(d: nat, base: nat, large: bool)
    requires 2 <= base <= 36 && d < base
    ensures BaseDigit(DigitChar(d, large), base, large)
  {
    DigitReadsBack(d, large);
  }

  lemma {:induction false} NumeralDigits(n: nat, base: nat, large: bool)
    requires 2 <= base <= 36
    ensures forall c :: c in Numeral(n, base, large) ==> BaseDigit(c, base, large)
    decreases n
  {
    if n < base {
      DigitIsDigit(n, base, large);
    } else {
      Smaller(n, base);
      DivDef(n, base);
      NumeralDigits(n / base, base, large);
      DigitIsDigit(n % base, base, large);
    }
  }

  lemma ReadSnoc(t: string, c: char, base: nat)
    ensures ReadNumeral(t + [c], base) == base * ReadNumeral(t, base) + DigitValue(c)
  {
    assert (t + [c])[..|t|] == t;
    Commute(ReadNumeral(t, base), base);
  }

  lemma Commute(x: int, y: int)
    ensures x * y == y * x
  {
  }

  /** What is printed is the number. */
  lemma {:induction false} NumeralReadsBack(n: nat, base: nat, large: bool)
    requires 2 <= base <= 36
    ensures ReadNumeral(Numeral(n, base, large), base) == n
    decreases n
  {
    var s := Numeral(n, base, large);
    if n < base {
      DigitReadsBack(n, large);
      ReadSnoc([], s[0], base);
      assert s == [] + [s[0]];
    } else {
      Smaller(n, base);
      DivDef(n, base);
      var q, d := n / base, n % base;
      NumeralReadsBack(q, base, large);
      DigitReadsBack(d, large);
      ReadSnoc(Numeral(q, base, large), DigitChar(d, large), base);
    }
  }

  lemma QuotientPositive(n: nat, base: nat)
    requires 0 < base <= n
    ensures n / base > 0
  {
    DivDef(n, base);
  }

  /** And without leading zeros. */
  lemma {:induction false} NumeralNoLeadingZero(n: nat, base: nat, large: bool)
    requires 2 <= base <= 36
    ensures Numeral(n, base, large)[0] == '0' <==> n == 0
    decreases n
  {
    if n >= base {
      Smaller(n, base);
      QuotientPositive(n, base);
      NumeralNoLeadingZero(n / base, base, large);
    }
  }
}
