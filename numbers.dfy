/** Java's 32-bit int: its range, two's-complement wrap-around of + and unary -,
    Integer.parseInt, and the decimal form Integer.toString writes. */
module Numbers {
  import opened Wrappers

  const INT_MIN: int := -0x8000_0000
  const INT_MAX: int := 0x7fff_ffff
  const MODULUS: int := 0x1_0000_0000

  type Int32 = x: int | -0x8000_0000 <= x <= 0x7fff_ffff

  /** The int a Java expression of mathematical value x evaluates to: x moved into the int
      range by whole multiples of 2^32. */
  function Wrap32(x: int): (r: Int32)
    ensures INT_MIN <= x <= INT_MAX ==> r == x
    decreases if x < INT_MIN then INT_MIN - x else if x > INT_MAX then x - INT_MAX else 0
  {
    if x < INT_MIN then Wrap32(x + MODULUS)
    else if x > INT_MAX then Wrap32(x - MODULUS)
    else x
  }

  /** The wrapped value is the one int congruent to x modulo 2^32. */
  lemma {:induction false} WrapCongruent(x: int)
    ensures (x - Wrap32(x)) % MODULUS == 0
    decreases if x < INT_MIN then INT_MIN - x else if x > INT_MAX then x - INT_MAX else 0
  {
    if x < INT_MIN {
      WrapCongruent(x + MODULUS);
      var k := (x + MODULUS - Wrap32(x)) / MODULUS;
      assert x + MODULUS - Wrap32(x) == k * MODULUS;
      assert x - Wrap32(x) == (k - 1) * MODULUS;
    } else if x > INT_MAX {
      WrapCongruent(x - MODULUS);
      var k := (x - MODULUS - Wrap32(x)) / MODULUS;
      assert x - MODULUS - Wrap32(x) == k * MODULUS;
      assert x - Wrap32(x) == (k + 1) * MODULUS;
    }
  }

  /** Two ints that are congruent modulo 2^32 are equal. */
  lemma CongruentInt32sAreEqual(a: Int32, b: Int32)
    requires (a - b) % MODULUS == 0
    ensures a == b
  {
  }

  lemma {:induction false} CongruentShift(x: int, y: int)
    requires (x - y) % MODULUS == 0
    ensures Wrap32(x) == Wrap32(y)
  {
    var k := (x - y) / MODULUS;
    assert x - y == k * MODULUS;
    var rx, ry := Wrap32(x), Wrap32(y);
    WrapCongruent(x);
    WrapCongruent(y);
    assert (rx - ry) % MODULUS == 0 by {
      var kx := (x - rx) / MODULUS;
      var ky := (y - ry) / MODULUS;
      assert x - rx == kx * MODULUS;
      assert y - ry == ky * MODULUS;
      assert rx - ry == (k - kx + ky) * MODULUS;
    }
    CongruentInt32sAreEqual(rx, ry);
  }

  /** Wrapping after every addition gives what wrapping once at the end gives:
      a running int total equals the wrapped mathematical sum. */
  lemma WrapOfSum(a: int, b: int)
    ensures Wrap32(Wrap32(a) + Wrap32(b)) == Wrap32(a + b)
  {
    WrapCongruent(a);
    WrapCongruent(b);
    var ka := (a - Wrap32(a)) / MODULUS;
    var kb := (b - Wrap32(b)) / MODULUS;
    assert a - Wrap32(a) == ka * MODULUS;
    assert b - Wrap32(b) == kb * MODULUS;
    assert (a + b) - (Wrap32(a) + Wrap32(b)) == (ka + kb) * MODULUS;
    CongruentShift(a + b, Wrap32(a) + Wrap32(b));
  }

  /** Adding to a wrapped value and wrapping again is wrapping the plain sum. */
  lemma WrapAfterAdd(a: int, d: int)
    ensures Wrap32(Wrap32(a) + d) == Wrap32(a + d)
  {
    WrapCongruent(a);
    var k := (a - Wrap32(a)) / MODULUS;
    assert a - Wrap32(a) == k * MODULUS;
    assert (Wrap32(a) + d) - (a + d) == (-k) * MODULUS;
    CongruentShift(Wrap32(a) + d, a + d);
  }

  /** Java's int expression a + (-p): the negation wraps, and so does the sum. */
  lemma WrapOfNegatedSum(a: Int32, p: Int32)
    ensures Wrap32(a + Wrap32(-(p as int))) == Wrap32(a + -(p as int))
  {
    WrapOfSum(a, -(p as int));
  }

  predicate IsDigit(c: char) {
    '0' <= c <= '9'
  }

  predicate AllDigits(s: string) {
    forall i :: 0 <= i < |s| ==> IsDigit(s[i])
  }

  /** The value of a string of decimal digits, most significant first. */
  function DigitsValue(s: string): nat
    requires AllDigits(s)
  {
    if s == [] then 0 else DigitsValue(s[..|s| - 1]) * 10 + (s[|s| - 1] as int - '0' as int)
  }

  /** Integer.parseInt(s): an optional '+' or '-' followed by at least one digit, whose
      value lies in the int range; anything else raises NumberFormatException (None). */
  function ParseInt(s: string): (r: Option<Int32>)
    ensures r.Some? ==> s != [] && (IsDigit(s[0]) || (|s| > 1 && (s[0] == '-' || s[0] == '+')))
    ensures r.Some? ==> AllDigits(s[1..])
  {
    if s == [] then None
    else
      var negative := s[0] == '-';
      var digits := if s[0] == '-' || s[0] == '+' then s[1..] else s;
      if digits == [] || !AllDigits(digits) then None
      else
        var magnitude: int := DigitsValue(digits);
        var v := if negative then -magnitude else magnitude;
        if INT_MIN <= v <= INT_MAX then Some(v) else None
  }

  function DigitChar(d: nat): char
    requires d < 10
  {
    ('0' as int + d) as char
  }

  /** Decimal digits of n, no leading zero. */
  function NatToString(n: nat): (r: string)
    ensures r != [] && AllDigits(r)
    ensures |r| > 1 ==> r[0] != '0'
  {
    if n < 10 then [DigitChar(n)] else NatToString(n / 10) + [DigitChar(n % 10)]
  }

  /** Integer.toString(n): a '-' for negative values, then the digits of |n|. */
  function IntToString(n: int): (r: string)
    ensures r != [] && ' ' !in r
    ensures IsDigit(r[|r| - 1]) && (IsDigit(r[0]) || r[0] == '-')
  {
    if n < 0 then "-" + NatToString(-n) else NatToString(n)
  }

  lemma {:induction false} DigitsValueOfNatToString(n: nat)
    ensures DigitsValue(NatToString(n)) == n
  {
    if n >= 10 {
      var s := NatToString(n);
      assert s[..|s| - 1] == NatToString(n / 10);
      DigitsValueOfNatToString(n / 10);
    }
  }

  /** parseInt reads back every int that toString writes. */
  lemma ParseIntOfIntToString(n: Int32)
    ensures ParseInt(IntToString(n)) == Some(n)
  {
    var magnitude: nat := if n < 0 then 0 - n as int else n as int;
    DigitsValueOfNatToString(magnitude);
    var s := IntToString(n);
    var digits := NatToString(magnitude);
    if n < 0 {
      assert s == "-" + digits;
      assert s[0] == '-' && s[1..] == digits;
    } else {
      assert s == digits && IsDigit(s[0]);
    }
  }

  /** parseInt on digits, with or without a sign in front: the value of the digits (leading
      zeros included), negated after '-', when it lies in the int range, and a failure when
      it does not. */
  lemma ParseIntOfDigits(d: string)
    requires d != [] && AllDigits(d)
    ensures DigitsValue(d) <= INT_MAX ==> ParseInt(d) == Some(DigitsValue(d)) && ParseInt("+" + d) == Some(DigitsValue(d))
    ensures DigitsValue(d) > INT_MAX ==> ParseInt(d) == None && ParseInt("+" + d) == None
    ensures DigitsValue(d) <= -INT_MIN ==> ParseInt("-" + d) == Some(-(DigitsValue(d) as int))
    ensures DigitsValue(d) > -INT_MIN ==> ParseInt("-" + d) == None
  {
    assert ("+" + d)[1..] == d && ("-" + d)[1..] == d;
  }

  /** parseInt rejects a string holding any character other than a sign in front
      and digits after it. */
  lemma ParseIntRejectsNonDigit(s: string, i: nat)
    requires i < |s| && !IsDigit(s[i]) && !(i == 0 && (s[i] == '-' || s[i] == '+'))
    ensures ParseInt(s) == None
  {
    if i > 0 {
      assert s[1..][i - 1] == s[i];
    }
  }
}
