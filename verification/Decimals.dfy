/** Decimal numerals: printing naturals, and reading 64-bit integers as strconv.ParseInt does. */
module Decimals {

  function Digit(d: nat): char
    requires d < 10
  {
    "0123456789"[d]
  }

  /** The decimal digits of n. */
  function Decimal(n: nat): (s: string)
    ensures |s| > 0 && forall i :: 0 <= i < |s| ==> s[i] != '/'
  {
    if n < 10 then [Digit(n)] else Decimal(n / 10) + [Digit(n % 10)]
  }

  lemma {:induction false} DecimalInjective(m: nat, n: nat)
    requires Decimal(m) == Decimal(n)
    ensures m == n
  {
    var s := Decimal(m);
    DigitInjective(m % 10, n % 10);
    if m >= 10 && n >= 10 {
      assert Decimal(m / 10) == s[..|s| - 1] == Decimal(n / 10);
      DecimalInjective(m / 10, n / 10);
    }
  }

  lemma DigitInjective(a: nat, b: nat)
    requires a < 10 && b < 10
    ensures Digit(a) == Digit(b) ==> a == b
  {
  }

  const MAX_UINT64: int := 0xFFFF_FFFF_FFFF_FFFF
  const MAX_INT64: int := 0x7FFF_FFFF_FFFF_FFFF

  predicate IsDigit(c: char) {
    '0' <= c <= '9'
  }

  /** The digits of s after the number read so far. It stops at the first character that is no digit
      (-1), or as soon as the number leaves 64 bits, at the largest. */
  function Magnitude(s: string, read: nat): int {
    if s == "" then read
    else if !IsDigit(s[0]) then -1
    else
      var next := 10 * read + (s[0] as int - '0' as int);
      if next > MAX_UINT64 then MAX_UINT64 else Magnitude(s[1..], next)
  }

  /** What is left of strconv.ParseInt when its error is ignored: malformed text counts as 0, and a
      number outside 64 bits as the nearest one inside. */
  function ParseInt(s: string): (n: int)
    ensures -MAX_INT64 - 1 <= n <= MAX_INT64
  {
    var negative := s != "" && s[0] == '-';
    var digits := if s != "" && (s[0] == '-' || s[0] == '+') then s[1..] else s;
    var m := if digits == "" then -1 else Magnitude(digits, 0);
    if m < 0 then 0
    else if negative then (if m > MAX_INT64 + 1 then -MAX_INT64 - 1 else -m)
    else if m > MAX_INT64 then MAX_INT64 else m
  }

  lemma {:induction false} MagnitudeSnoc(s: string, d: nat, read: nat)
    requires d < 10 && 0 <= Magnitude(s, read) && 10 * Magnitude(s, read) + d <= MAX_UINT64
    ensures Magnitude(s + [Digit(d)], read) == 10 * Magnitude(s, read) + d
  {
    var longer := s + [Digit(d)];
    if s == "" {
      assert longer == [Digit(d)] && longer[1..] == "";
      assert Magnitude(longer[1..], 10 * read + d) == 10 * read + d;
    } else {
      assert longer[0] == s[0] && longer[1..] == s[1..] + [Digit(d)];
      MagnitudeSnoc(s[1..], d, 10 * read + (s[0] as int - '0' as int));
    }
  }

  lemma {:induction false} MagnitudeOfDecimal(n: nat)
    requires n <= MAX_UINT64
    ensures Magnitude(Decimal(n), 0) == n
  {
    if n < 10 {
      assert Decimal(n) == [Digit(n)] && Decimal(n)[1..] == "";
      assert Magnitude("", n) == n;
    } else {
      MagnitudeOfDecimal(n / 10);
      MagnitudeSnoc(Decimal(n / 10), n % 10, 0);
    }
  }

  lemma {:induction false} DecimalDigits(n: nat)
    ensures forall i :: 0 <= i < |Decimal(n)| ==> IsDigit(Decimal(n)[i])
  {
    if n >= 10 {
      DecimalDigits(n / 10);
    }
  }

  /** A printed number is read back, or clipped to 64 bits. */
  lemma ParseDecimal(n: nat)
    requires n <= MAX_UINT64
    ensures ParseInt(Decimal(n)) == if n <= MAX_INT64 then n else MAX_INT64
    ensures ParseInt("-" + Decimal(n)) == if n <= MAX_INT64 + 1 then -(n as int) else -MAX_INT64 - 1
  {
    MagnitudeOfDecimal(n);
    DecimalDigits(n);
    assert ("-" + Decimal(n))[1..] == Decimal(n);
  }

  // ---------- what numerals mean ----------

  function Pow10(i: nat): (p: nat)
    ensures p > 0
  {
    if i == 0 then 1 else 10 * Pow10(i - 1)
  }

  /** The i-th decimal digit of n from the right. */
  function DigitAt(n: nat, i: nat): nat {
    (n / Pow10(i)) % 10
  }

  lemma NextDigit(n: nat, i: nat)
    ensures DigitAt(n / 10, i) == DigitAt(n, i + 1)
    ensures DigitAt(n, 0) == n % 10
  {
    DivDiv(n, Pow10(i));
  }

  /** The i-th character from the right is the i-th decimal digit, counted from '0'. */
  lemma {:induction false} DecimalTheorem(n: nat, i: nat)
    requires i < |Decimal(n)|
    ensures Decimal(n)[|Decimal(n)| - 1 - i] as int == '0' as int + DigitAt(n, i)
    decreases n
  {
    DigitIs(n % 10);
    NextDigit(n, if i > 0 then i - 1 else 0);
    if n >= 10 && i > 0 {
      var rest := Decimal(n / 10);
      DecimalTheorem(n / 10, i - 1);
      assert Decimal(n)[|Decimal(n)| - 1 - i] == rest[|rest| - 1 - (i - 1)];
    }
  }

  lemma {:induction false} NoLeadingZero(n: nat)
    ensures Decimal(n)[0] == '0' ==> n == 0
  {
    DigitIs(n % 10);
    if n >= 10 {
      NoLeadingZero(n / 10);
      assert Decimal(n)[0] == Decimal(n / 10)[0];
    }
  }

  lemma DigitIs(d: nat)
    requires d < 10
    ensures Digit(d) as int == '0' as int + d
  {
  }

  lemma DivDiv(n: nat, p: nat)
    requires p > 0
    ensures (n / 10) / p == n / (10 * p)
  {
    var q := n / 10 / p;
    assert n / 10 == q * p + n / 10 % p;
    assert n == (10 * p) * q + (10 * (n / 10 % p) + n % 10);
    assert 10 * (n / 10 % p) + n % 10 < 10 * p;
    DivUnique(n, 10 * p, q, 10 * (n / 10 % p) + n % 10);
  }

  lemma DivUnique(n: nat, d: nat, q: nat, r: nat)
    requires n == d * q + r && r < d
    ensures n / d == q
  {
    assert d * (q - n / d) == n % d - r;
    AtLeast(d, q - n / d);
  }

  lemma AtLeast(d: nat, k: int)
    ensures k > 0 ==> d * k >= d
    ensures k < 0 ==> d * k + d <= 0
  {
  }

  predicate AllDigits(s: string) {
    forall i :: 0 <= i < |s| ==> IsDigit(s[i])
  }

  /** The number that digits stand for, behind those of a number read before. */
  function ValueOf(digits: string, read: nat): nat
    requires AllDigits(digits)
  {
    if digits == "" then read else ValueOf(digits[1..], 10 * read + (digits[0] as int - '0' as int))
  }

  lemma {:induction false} ValueGrows(digits: string, read: nat)
    requires AllDigits(digits)
    ensures ValueOf(digits, read) >= read
  {
    if digits != "" {
      ValueGrows(digits[1..], 10 * read + (digits[0] as int - '0' as int));
    }
  }

  /** A text made of digits, or of digits in front of something else. */
  lemma {:induction false} MagnitudeTheorem(digits: string, rest: string, read: nat)
    requires AllDigits(digits) && (rest != "" ==> !IsDigit(rest[0])) && read <= MAX_UINT64
    ensures Magnitude(digits + rest, read) ==
            if ValueOf(digits, read) > MAX_UINT64 then MAX_UINT64
            else if rest == "" then ValueOf(digits, read) else -1
  {
    if digits == "" {
      assert digits + rest == rest;
    } else {
      var next := 10 * read + (digits[0] as int - '0' as int);
      assert (digits + rest)[0] == digits[0] && (digits + rest)[1..] == digits[1..] + rest;
      ValueGrows(digits[1..], next);
      if next <= MAX_UINT64 {
        MagnitudeTheorem(digits[1..], rest, next);
      }
    }
  }

  /** The nearest 64-bit integer. */
  function Clip(n: int): int {
    if n > 9_223_372_036_854_775_807 then 9_223_372_036_854_775_807
    else if n < -9_223_372_036_854_775_808 then -9_223_372_036_854_775_808
    else n
  }

  /** What every text is read as: a sign, if there is one, and the digits up to the first character that
      is none. They count, to the nearest 64-bit integer, if there are any and nothing follows them, or if
      they alone are more than 64 bits hold; everything else is 0. */
  lemma ParseTheorem(sign: string, digits: string, rest: string)
    requires sign in {"", "-", "+"} && AllDigits(digits) && (rest != "" ==> !IsDigit(rest[0]))
    requires sign == "" && digits == "" && rest != "" ==> rest[0] != '-' && rest[0] != '+'
    ensures var n: int := ValueOf(digits, 0);
            ParseInt(sign + digits + rest) ==
            if digits != "" && (rest == "" || n > 18_446_744_073_709_551_615)
            then Clip(if sign == "-" then -n else n) else 0
  {
    var s := sign + digits + rest;
    MagnitudeTheorem(digits, rest, 0);
    if sign == "" {
      assert s == digits + rest;
      assert digits != "" ==> IsDigit(s[0]) && s[0] == digits[0];
    } else {
      assert s[0] == sign[0] && s[1..] == digits + rest;
    }
  }
}
