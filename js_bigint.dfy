/** The JavaScript `bigint` semantics the library relies on: exponentiation
    `10n ** e`, the truncating division `/`, `toString()` and the `BigInt(text)`
    and `BigInt(Number(text))` conversions.  Dafny's `int` is already
    arbitrary-precision; only the operations whose meaning differs are spelled
    out here. */
module JsBigInt {
  import opened Results

  /** 10 to the power k. */
  function Pow10(k: nat): (r: nat)
    ensures r >= 1
  {
    if k == 0 then 1 else 10 * Pow10(k - 1)
  }

  lemma {:induction false} Pow10Add(a: nat, b: nat)
    ensures Pow10(a + b) == Pow10(a) * Pow10(b)
  {
    if b > 0 {
      Pow10Add(a, b - 1);
      assert Pow10(a + b) == 10 * Pow10(a + b - 1);
      assert Pow10(a) * Pow10(b) == Pow10(a) * (10 * Pow10(b - 1));
    }
  }

  /** `10n ** e`: a negative exponent throws a RangeError. */
  function Exp10(e: int): (r: Result<nat>)
    ensures r.Success? <==> e >= 0
    ensures r.Success? ==> r.value >= 1
  {
    if e < 0 then Failure(NegativeExponent) else Success(Pow10(e))
  }

  function Magnitude(a: int): nat {
    if a < 0 then -a else a
  }

  /** q is the quotient of a by b rounded toward zero: the remainder a - q*b
      is smaller than |b| and has the sign of a. */
  ghost predicate IsTruncQuotient(a: int, b: int, q: int) {
    var r, m: int := a - q * b, Magnitude(b);
    (a >= 0 ==> 0 <= r < m) && (a < 0 ==> -m < r <= 0)
  }

  /** The quotient of bigint division, which truncates toward zero (unlike
      Dafny's Euclidean `/`). */
  function TruncDiv(a: int, b: int): (q: int)
    requires b != 0
    ensures IsTruncQuotient(a, b, q)
  {
    var m := Magnitude(b);
    var n := Magnitude(a);
    var u := n / m;
    assert n == u * m + n % m && 0 <= n % m < m;
    if (a < 0) == (b < 0) then u else -u
  }

  lemma MulAtLeast(k: int, m: nat)
    requires k >= 1
    ensures k * m >= m
  {
  }

  /** Truncated division has at most one answer. */
  lemma TruncQuotientUnique(a: int, b: int, q1: int, q2: int)
    requires b != 0
    requires IsTruncQuotient(a, b, q1) && IsTruncQuotient(a, b, q2)
    ensures q1 == q2
  {
    var m := Magnitude(b);
    var r1, r2 := a - q1 * b, a - q2 * b;
    assert r1 - r2 == (q2 - q1) * b;
    assert -m < r1 - r2 < m;
    var k := q2 - q1;
    if k >= 1 {
      MulAtLeast(k, m);
    } else if k <= -1 {
      MulAtLeast(-k, m);
    }
    assert k * b == k * m || k * b == -(k * m);
  }

  /** Dividing an exact multiple loses nothing. */
  lemma TruncDivMultiple(x: int, d: int)
    requires d > 0
    ensures TruncDiv(x * d, d) == x
  {
    assert IsTruncQuotient(x * d, d, x);
    TruncQuotientUnique(x * d, d, x, TruncDiv(x * d, d));
  }

  lemma ScaleRemainder(a: int, q: int, c: int, d: int)
    ensures a * c - q * (d * c) == (a - q * d) * c
    ensures c > 0 ==> (a >= 0 <==> a * c >= 0)
  {
  }

  lemma ScaleBelow(r: int, c: int, d: int)
    requires 0 <= r < d && c > 0
    ensures 0 <= r * c < d * c && -(d * c) < -r * c <= 0
  {
  }

  /** Scaling numerator and denominator by the same positive factor does not
      change the truncated quotient. */
  lemma TruncDivCancel(a: int, c: int, d: int)
    requires c > 0 && d > 0
    ensures TruncDiv(a * c, d * c) == TruncDiv(a, d)
  {
    var q := TruncDiv(a, d);
    var r := a - q * d;
    ScaleRemainder(a, q, c, d);
    if a >= 0 {
      ScaleBelow(r, c, d);
    } else {
      ScaleBelow(-r, c, d);
    }
    assert IsTruncQuotient(a * c, d * c, q);
    TruncQuotientUnique(a * c, d * c, q, TruncDiv(a * c, d * c));
  }

  /** Truncation is symmetric about zero: negating the dividend negates the
      quotient (Euclidean division is not). */
  lemma TruncDivNeg(a: int, b: int)
    requires b != 0
    ensures TruncDiv(-a, b) == -TruncDiv(a, b)
  {
    var q := TruncDiv(a, b);
    if a == 0 {
      assert IsTruncQuotient(0, b, 0);
      TruncQuotientUnique(0, b, 0, q);
    } else {
      TruncQuotientNeg(a, b, q);
      TruncQuotientUnique(-a, b, -q, TruncDiv(-a, b));
    }
  }

  lemma TruncQuotientNeg(a: int, b: int, q: int)
    requires a != 0 && IsTruncQuotient(a, b, q)
    ensures IsTruncQuotient(-a, b, -q)
  {
    var p := q * b;
    assert (-q) * b == -p;
    assert -a - (-q) * b == -(a - p);
  }

  /** On non-negative operands truncation and Euclidean division agree. */
  lemma TruncDivNonNegative(a: nat, d: int)
    requires d > 0
    ensures TruncDiv(a, d) == a / d
  {
    assert IsTruncQuotient(a, d, a / d);
    TruncQuotientUnique(a, d, a / d, TruncDiv(a, d));
  }

  /** The bigint `/` operator: division by 0n throws a RangeError. */
  function Quot(a: int, b: int): (r: Result<int>)
    ensures r.Failure? <==> b == 0
    ensures r.Failure? ==> r.error == DivisionByZero
    ensures r.Success? ==> IsTruncQuotient(a, b, r.value)
  {
    if b == 0 then Failure(DivisionByZero) else Success(TruncDiv(a, b))
  }

  // ---------------------------------------------------------------------
  // Decimal digits

  predicate IsDigit(c: char) {
    '0' <= c <= '9'
  }

  predicate IsDigits(s: string) {
    forall i :: 0 <= i < |s| ==> IsDigit(s[i])
  }

  function DigitValue(c: char): nat
    requires IsDigit(c)
  {
    c as int - '0' as int
  }

  function DigitChar(d: nat): (c: char)
    requires d < 10
    ensures IsDigit(c) && DigitValue(c) == d
  {
    ('0' as int + d) as char
  }

  /** The number a string of decimal digits denotes (leading zeros allowed,
      the empty string denotes 0). */
  function DigitsValue(s: string): nat
    requires IsDigits(s)
  {
    if |s| == 0 then 0 else 10 * DigitsValue(s[..|s| - 1]) + DigitValue(s[|s| - 1])
  }

  lemma {:induction false} DigitsValueAppend(a: string, b: string)
    requires IsDigits(a) && IsDigits(b)
    ensures IsDigits(a + b)
    ensures DigitsValue(a + b) == DigitsValue(a) * Pow10(|b|) + DigitsValue(b)
  {
    assert IsDigits(a + b) by {
      forall i | 0 <= i < |a + b| ensures IsDigit((a + b)[i]) {
        if i < |a| { assert (a + b)[i] == a[i]; } else { assert (a + b)[i] == b[i - |a|]; }
      }
    }
    if |b| == 0 {
      assert a + b == a;
    } else {
      var b' := b[..|b| - 1];
      assert IsDigits(b');
      assert (a + b)[..|a + b| - 1] == a + b';
      assert (a + b)[|a + b| - 1] == b[|b| - 1];
      DigitsValueAppend(a, b');
      var x, p := DigitsValue(a), Pow10(|b'|);
      assert Pow10(|b|) == 10 * p;
      assert DigitsValue(b) == 10 * DigitsValue(b') + DigitValue(b[|b| - 1]);
      Horner(x, p, DigitsValue(b'), DigitValue(b[|b| - 1]));
    }
  }

  lemma Horner(x: int, p: int, v: int, d: int)
    ensures 10 * (x * p + v) + d == x * (10 * p) + (10 * v + d)
  {
  }

  /** Cutting a digit string before its last p digits. */
  lemma SplitDigits(str: string, p: nat)
    requires IsDigits(str) && p <= |str|
    ensures IsDigits(str[..|str| - p]) && IsDigits(str[|str| - p..])
    ensures DigitsValue(str[..|str| - p]) * Pow10(p) + DigitsValue(str[|str| - p..]) == DigitsValue(str)
  {
    var n := |str| - p;
    var I, F := str[..n], str[n..];
    assert IsDigits(I) by {
      forall k | 0 <= k < |I| ensures IsDigit(I[k]) { assert I[k] == str[k]; }
    }
    assert IsDigits(F) by {
      forall k | 0 <= k < |F| ensures IsDigit(F[k]) { assert F[k] == str[n + k]; }
    }
    assert str == I + F;
    assert |F| == p;
    DigitsValueAppend(I, F);
  }

  /** A run of '0' characters denotes 0. */
  lemma {:induction false} ZerosValue(z: string)
    requires forall i :: 0 <= i < |z| ==> z[i] == '0'
    ensures IsDigits(z) && DigitsValue(z) == 0
  {
    if |z| > 0 {
      ZerosValue(z[..|z| - 1]);
    }
  }

  /** `n.toString()` for n >= 0: the shortest decimal digits of n. */
  function NatToString(n: nat): (s: string)
    ensures |s| >= 1 && IsDigits(s)
    ensures DigitsValue(s) == n
    ensures s[0] == '0' <==> n == 0
    ensures n == 0 ==> s == "0"
  {
    if n < 10 then
      [DigitChar(n)]
    else
      var prefix := NatToString(n / 10);
      var s := prefix + [DigitChar(n % 10)];
      assert s[..|s| - 1] == prefix;
      s
  }

  /** `n.toString()` for a bigint n: digits, preceded by '-' when negative. */
  function IntToString(n: int): (s: string)
    ensures |s| >= 1
    ensures s[0] == '-' <==> n < 0
    ensures n >= 0 ==> IsDigits(s) && DigitsValue(s) == n
    ensures n < 0 ==> IsDigits(s[1..]) && DigitsValue(s[1..]) == -n
    ensures forall i :: 0 <= i < |s| ==> s[i] == '-' || IsDigit(s[i])
    ensures n >= 0 ==> (s[0] == '0' <==> n == 0) && (n == 0 ==> s == "0")
    ensures n < 0 ==> |s| >= 2 && s[1] != '0'
  {
    if n < 0 then "-" + NatToString(-n) else NatToString(n)
  }

  /** `BigInt(text)`, restricted to an optional '-' followed by decimal
      digits; the empty string converts to 0n, anything else is a
      SyntaxError. */
  function ParseBigInt(s: string): (r: Result<int>)
    ensures r.Failure? ==> r.error == BigIntSyntax
    ensures r.Success? <==> IsDigits(s) || (|s| > 1 && s[0] == '-' && IsDigits(s[1..]))
    ensures IsDigits(s) ==> r == Success(DigitsValue(s))
    ensures |s| > 1 && s[0] == '-' && IsDigits(s[1..]) ==> r == Success(-(DigitsValue(s[1..]) as int))
  {
    if |s| == 0 then
      Success(0)
    else if s[0] == '-' then
      if |s| > 1 && IsDigits(s[1..]) then Success(-(DigitsValue(s[1..]) as int)) else Failure(BigIntSyntax)
    else if IsDigits(s) then
      Success(DigitsValue(s))
    else
      Failure(BigIntSyntax)
  }

  /** `BigInt(n.toString()) == n`: converting a bigint to text and back is
      the identity. */
  lemma ParseIntToString(n: int)
    ensures ParseBigInt(IntToString(n)) == Success(n)
  {
    var s := IntToString(n);
    if n < 0 {
      assert s[0] == '-' && |s| > 1;
    } else {
      assert IsDigits(s);
    }
  }

  /** `BigInt(Number(text))` for the exponent text of exponent notation,
      as far as this model reads it: the empty string (Number gives 0) and
      an optional sign followed by decimal digits.  The model treats every
      other text as not an integer (BigInt's RangeError on a NaN or a
      fraction), including texts that Number does read as integers, such as
      "2.0", "2.", " 2", "2E1" and "0x10". */
  function NumberToBigInt(s: string): (r: Result<int>)
    ensures r.Failure? ==> r.error == NotAnInteger
    ensures r.Success? <==> IsDigits(s) || (|s| > 1 && (s[0] == '-' || s[0] == '+') && IsDigits(s[1..]))
    ensures IsDigits(s) ==> r == Success(DigitsValue(s))
    ensures |s| > 1 && s[0] == '-' && IsDigits(s[1..]) ==> r == Success(-(DigitsValue(s[1..]) as int))
    ensures |s| > 1 && s[0] == '+' && IsDigits(s[1..]) ==> r == Success(DigitsValue(s[1..]))
  {
    if |s| == 0 then
      Success(0)
    else if (s[0] == '-' || s[0] == '+') && |s| > 1 && IsDigits(s[1..]) then
      Success(if s[0] == '-' then -(DigitsValue(s[1..]) as int) else DigitsValue(s[1..]))
    else if IsDigits(s) then
      Success(DigitsValue(s))
    else
      Failure(NotAnInteger)
  }

  /** The exponent text '-' followed by digits k converts to -k. */
  lemma NumberToBigIntNegative(k: string)
    requires IsDigits(k) && |k| > 0
    ensures NumberToBigInt("-" + k) == Success(-(DigitsValue(k) as int))
  {
    assert ("-" + k)[1..] == k;
  }
}
