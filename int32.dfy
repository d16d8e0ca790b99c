/**
 * The `i32` type and the two conversions the interpreter relies on:
 * `str::parse::<i32>` (the `FromStr` implementation of Rust's core
 * library, radix 10) and the decimal `Display` used to print a total.
 */
module I32 {
  import opened Results

  const MIN: int := -0x8000_0000
  const MAX: int := 0x7FFF_FFFF

  /** A 32-bit two's-complement integer. */
  newtype i32 = x: int | MIN <= x <= MAX

  predicate InRange(x: int) { MIN <= x <= MAX }

  predicate IsDigit(c: char) { '0' <= c <= '9' }

  predicate AllDigits(s: string) { forall i :: 0 <= i < |s| ==> IsDigit(s[i]) }

  function DigitValue(c: char): (d: nat)
    requires IsDigit(c)
    ensures d < 10
  {
    c as int - '0' as int
  }

  /** The number written by the decimal digits `s`, most significant first. */
  function DecimalValue(s: string): nat
    requires AllDigits(s)
  {
    if s == [] then 0 else DecimalValue(s[..|s| - 1]) * 10 + DigitValue(s[|s| - 1])
  }

  function Signed(m: nat, negative: bool): int {
    if negative then -(m as int) else m
  }

  /**
   * The digit loop of `from_str_radix`: the accumulator is multiplied by
   * ten and the next digit added (subtracted for a negative number), each
   * step with checked arithmetic; a non-digit or an overflow fails.
   */
  function Accumulate(digits: string, acc: i32, negative: bool): Option<i32>
    decreases |digits|
  {
    if digits == [] then Some(acc)
    else if !IsDigit(digits[0]) then None
    else
      var shifted := acc as int * 10;
      if !InRange(shifted) then None
      else
        var next := if negative then shifted - DigitValue(digits[0]) else shifted + DigitValue(digits[0]);
        if !InRange(next) then None
        else Accumulate(digits[1..], next as i32, negative)
  }

  /**
   * `s.parse::<i32>()`: an empty string fails; a lone `+` or `-` fails;
   * one leading sign is stripped; the rest goes through the digit loop.
   * `None` stands for every `ParseIntError`.
   */
  function ParseI32(s: string): Option<i32> {
    if s == [] then None
    else if (s[0] == '+' || s[0] == '-') && |s| == 1 then None
    else if s[0] == '+' then Accumulate(s[1..], 0, false)
    else if s[0] == '-' then Accumulate(s[1..], 0, true)
    else Accumulate(s, 0, false)
  }

  // ---- The declarative reading of a decimal integer ----

  predicate HasSign(s: string) { |s| > 0 && (s[0] == '+' || s[0] == '-') }

  /** The digits of `s` once an optional leading sign is removed. */
  function Unsigned(s: string): string {
    if HasSign(s) then s[1..] else s
  }

  /** An optional sign followed by at least one ASCII digit, nothing else. */
  predicate WellFormed(s: string) {
    |Unsigned(s)| > 0 && AllDigits(Unsigned(s))
  }

  /** The integer a well-formed `s` denotes. */
  function Denotes(s: string): int
    requires WellFormed(s)
  {
    Signed(DecimalValue(Unsigned(s)), HasSign(s) && s[0] == '-')
  }

  // ---- Display ----

  function DigitChar(d: nat): (c: char)
    requires d < 10
    ensures IsDigit(c) && DigitValue(c) == d
  {
    ('0' as int + d) as char
  }

  /** The shortest decimal spelling of `n`. */
  function NatToDigits(n: nat): string
    decreases n
  {
    if n < 10 then [DigitChar(n)] else NatToDigits(n / 10) + [DigitChar(n % 10)]
  }

  /** `format!("{}", v)` for an `i32`: a `-` for negative values, no `+`. */
  function FormatI32(v: i32): string {
    if v < 0 then "-" + NatToDigits(-(v as int)) else NatToDigits(v as int)
  }

  // ---- Lemmas ----

  lemma {:induction false} DecimalValuePrefix(s: string, k: nat)
    requires AllDigits(s) && k <= |s|
    ensures AllDigits(s[..k]) && DecimalValue(s[..k]) <= DecimalValue(s)
    decreases |s| - k
  {
    if k < |s| {
      var t := s[..|s| - 1];
      DecimalValuePrefix(t, k);
      assert t[..k] == s[..k];
      assert DecimalValue(s) == DecimalValue(t) * 10 + DigitValue(s[|s| - 1]);
    } else {
      assert s[..k] == s;
    }
  }

  lemma DecimalValueSnoc(p: string, c: char)
    requires AllDigits(p) && IsDigit(c)
    ensures AllDigits(p + [c]) && DecimalValue(p + [c]) == DecimalValue(p) * 10 + DigitValue(c)
  {
    assert (p + [c])[..|p|] == p;
  }

  /** One turn of the digit loop, on a digit, from the accumulator for magnitude `m`. */
  lemma AccumulateStep(d: string, m: nat, negative: bool)
    requires d != [] && IsDigit(d[0]) && InRange(Signed(m, negative))
    ensures var next := Signed(m * 10 + DigitValue(d[0]), negative);
      Accumulate(d, Signed(m, negative) as i32, negative) ==
        if InRange(next) then Accumulate(d[1..], next as i32, negative) else None
  {
  }

  /**
   * The digit loop, started after the digits `p` have been consumed,
   * succeeds on `d` exactly when `p + d` is all digits and the value of
   * `p + d` fits in `i32`, and then yields that value.
   */
  lemma {:induction false} AccumulateMeaning(p: string, d: string, negative: bool)
    requires AllDigits(p) && InRange(Signed(DecimalValue(p), negative))
    ensures var r := Accumulate(d, Signed(DecimalValue(p), negative) as i32, negative);
      && (r.Some? <==> AllDigits(p + d) && InRange(Signed(DecimalValue(p + d), negative)))
      && (r.Some? ==> r.value as int == Signed(DecimalValue(p + d), negative))
    decreases |d|
  {
    if d == [] {
      assert p + d == p;
      return;
    }
    var c := d[0];
    if !IsDigit(c) {
      assert (p + d)[|p|] == c;
      return;
    }
    var q := p + [c];
    DecimalValueSnoc(p, c);
    assert p + d == q + d[1..];
    AccumulateStep(d, DecimalValue(p), negative);
    if InRange(Signed(DecimalValue(q), negative)) {
      AccumulateMeaning(q, d[1..], negative);
    } else if AllDigits(p + d) {
      DecimalValuePrefix(p + d, |q|);
      assert (p + d)[..|q|] == q;
    }
  }

  /**
   * `parse::<i32>` accepts exactly the well-formed strings whose value
   * fits in `i32`, and returns that value.
   */
  lemma ParseI32Meaning(s: string)
    ensures ParseI32(s).Some? <==> WellFormed(s) && InRange(Denotes(s))
    ensures ParseI32(s).Some? ==> ParseI32(s).value as int == Denotes(s)
  {
    var neg := HasSign(s) && s[0] == '-';
    assert DecimalValue("") == 0;
    AccumulateMeaning("", Unsigned(s), neg);
    assert "" + Unsigned(s) == Unsigned(s);
    if s != [] && !HasSign(s) {
      assert Unsigned(s) == s;
    }
  }

  /** Strings `parse::<i32>` refuses: empty, a sign alone, a letter, blanks, overflow. */
  lemma ParseI32Rejects()
    ensures ParseI32("") == None
    ensures ParseI32("-") == None && ParseI32("+") == None
    ensures ParseI32("x") == None && ParseI32("nope") == None
    ensures ParseI32(" 1") == None && ParseI32("1 ") == None
    ensures ParseI32("+-1") == None
  {
  }

  /** One past either end of the range overflows. */
  lemma ParseI32RejectsOverflow()
    ensures ParseI32("2147483648") == None && ParseI32("-2147483649") == None
  {
  }

  /** Strings `parse::<i32>` accepts: a sign is optional, leading zeros are allowed. */
  lemma ParseI32Accepts()
    ensures ParseI32("10") == Some(10) && ParseI32("-3") == Some(-3)
    ensures ParseI32("+5") == Some(5) && ParseI32("007") == Some(7) && ParseI32("-0") == Some(0)
  {
  }

  /**
   * The spelling of `n` is a string of digits that denotes `n`. It has no
   * leading zero, except for `0` itself, which is spelled `"0"`.
   */
  lemma {:induction false} NatToDigitsMeaning(n: nat)
    ensures |NatToDigits(n)| > 0 && AllDigits(NatToDigits(n))
    ensures DecimalValue(NatToDigits(n)) == n
    ensures n > 0 ==> NatToDigits(n)[0] != '0'
    ensures n == 0 ==> NatToDigits(n) == "0"
    decreases n
  {
    if n >= 10 {
      NatToDigitsMeaning(n / 10);
      DecimalValueSnoc(NatToDigits(n / 10), DigitChar(n % 10));
    }
  }

  /** Parsing what `Display` prints for an `i32` gives the value back. */
  lemma FormatParseRoundTrip(v: i32)
    ensures ParseI32(FormatI32(v)) == Some(v)
  {
    var m := if v < 0 then -(v as int) else v as int;
    var digits := NatToDigits(m);
    NatToDigitsMeaning(m);
    if v < 0 {
      assert Unsigned(FormatI32(v)) == digits;
    } else {
      assert IsDigit(digits[0]);
      assert Unsigned(FormatI32(v)) == digits;
    }
    ParseI32Meaning(FormatI32(v));
  }
}
