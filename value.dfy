/** The fixed-point value and its inputs: the immutable `(base, precision)`
    pair of the `FixedPoint` class (src/FixedPoint.ts and, identically,
    src/index.ts), the `Base`/`Numeric` argument forms of src/types.ts, and the
    unary members the two class generations share word for word: `neg`,
    `abs`, `toString`, `toJSON` and `toDecimalString`. */
module FixedPointValue {
  import opened Results
  import opened JsBigInt
  import opened JsString
  import FixedMath

  /** The number base / 10^precision.  The constructor accepts any pair;
      every value the parsers build has precision >= 0. */
  datatype FixedPoint = FixedPoint(base: int, precision: int)

  /** `Base`: a decimal text or a bigint. */
  datatype Base = Text(text: string) | Big(value: int)

  /** `Numeric`: a `[base, precision]` tuple or a bare base. */
  datatype Numeric = Scaled(base: Base, precision: int) | Plain(base: Base)

  /** The argument of every binary operator: `FixedPoint | Numeric`. */
  datatype Operand = Value(fp: FixedPoint) | Num(numeric: Numeric)

  /** The rational number a value stands for. */
  ghost function RealValue(x: FixedPoint): real
    requires x.precision >= 0
  {
    x.base as real / Pow10(x.precision) as real
  }

  /** Writing a value with k more digits of precision does not change it. */
  lemma RealValueScale(b: int, p: nat, k: nat)
    ensures RealValue(FixedPoint(b * Pow10(k), p + k)) == RealValue(FixedPoint(b, p))
  {
    var P, K := Pow10(p), Pow10(k);
    Pow10Add(p, k);
    CastProduct(b, K);
    CastProduct(P, K);
    CancelFactor(b as real, P as real, K as real);
    calc {
      RealValue(FixedPoint(b * K, p + k));
      (b * K) as real / Pow10(p + k) as real;
      (b as real * K as real) / (P as real * K as real);
      b as real / P as real;
    }
  }

  lemma CastProduct(x: int, y: int)
    ensures (x * y) as real == x as real * y as real
  {
  }

  lemma CancelFactor(x: real, d: real, e: real)
    requires d > 0.0 && e > 0.0
    ensures (x * e) / (d * e) == x / d
  {
    var q := x / d;
    assert q * d == x;
    assert q * (d * e) == x * e;
  }

  /** Values at a common precision add as their bases do. */
  lemma RealValueSum(x: int, y: int, p: nat)
    ensures RealValue(FixedPoint(x + y, p)) == RealValue(FixedPoint(x, p)) + RealValue(FixedPoint(y, p))
  {
  }

  /** Values at a common precision subtract as their bases do. */
  lemma RealValueDifference(x: int, y: int, p: nat)
    ensures RealValue(FixedPoint(x - y, p)) == RealValue(FixedPoint(x, p)) - RealValue(FixedPoint(y, p))
  {
  }

  /** The product of two bases, read at the sum of their precisions, is the
      product of the two values. */
  lemma RealValueProduct(x: int, p: nat, y: int, q: nat)
    ensures RealValue(FixedPoint(x * y, p + q)) == RealValue(FixedPoint(x, p)) * RealValue(FixedPoint(y, q))
  {
    var P, Q := Pow10(p), Pow10(q);
    Pow10Add(p, q);
    CastProduct(x, y);
    CastProduct(P, Q);
    MulFractions(x as real, P as real, y as real, Q as real);
    calc {
      RealValue(FixedPoint(x * y, p + q));
      (x * y) as real / Pow10(p + q) as real;
      (x as real * y as real) / (P as real * Q as real);
      (x as real / P as real) * (y as real / Q as real);
    }
  }

  lemma MulFractions(x: real, d: real, y: real, e: real)
    requires d > 0.0 && e > 0.0
    ensures (x * y) / (d * e) == (x / d) * (y / e)
  {
    var u, v := x / d, y / e;
    assert u * d == x && v * e == y;
    assert (u * v) * (d * e) == x * y;
  }

  /** At a common precision, values compare as their bases do. */
  lemma RealValueOrder(x: int, y: int, p: nat)
    ensures x < y <==> RealValue(FixedPoint(x, p)) < RealValue(FixedPoint(y, p))
    ensures x == y <==> RealValue(FixedPoint(x, p)) == RealValue(FixedPoint(y, p))
  {
    var d := Pow10(p) as real;
    assert RealValue(FixedPoint(x, p)) * d == x as real;
    assert RealValue(FixedPoint(y, p)) * d == y as real;
  }

  /** x's base rewritten at precision n, as every operator does with
      `toPrecision(x.base, n, x.precision)`: unchanged at x's own precision,
      and otherwise a bigint exponent error unless both precisions are
      non-negative.  `RescaledIsRescaledBase` gives the value. */
  function Rescaled(x: FixedPoint, n: int): (r: Result<int>)
    ensures n == x.precision ==> r == Success(x.base)
    ensures r.Success? <==> n == x.precision || (n >= 0 && x.precision >= 0)
    ensures r.Failure? ==> r.error == NegativeExponent
  {
    FixedMath.ToPrecision(x.base, n, x.precision)
  }

  /** Reference value of x's base at precision n: multiplied by a power of
      ten when widening, divided by one and truncated toward zero when
      narrowing. */
  function RescaledBase(x: FixedPoint, n: nat): int
    requires x.precision >= 0
  {
    if x.precision <= n then x.base * Pow10(n - x.precision)
    else TruncDiv(x.base, Pow10(x.precision - n))
  }

  /** Rescaling between non-negative precisions succeeds with the reference
      value. */
  lemma RescaledIsRescaledBase(x: FixedPoint, n: nat)
    requires x.precision >= 0
    ensures Rescaled(x, n) == Success(RescaledBase(x, n))
  {
    if x.precision <= n {
      RescaledWiden(x, n);
    } else {
      FixedMath.ToPrecisionNarrow(x.base, n, x.precision - n);
    }
  }

  /** Rescaling to a precision at least x's own is exact. */
  lemma RescaledWiden(x: FixedPoint, n: int)
    requires 0 <= x.precision <= n
    ensures Rescaled(x, n) == Success(x.base * Pow10(n - x.precision))
  {
    FixedMath.ToPrecisionWiden(x.base, x.precision, n - x.precision);
  }

  /** Rescaling commutes with negation, because truncation is symmetric
      about zero. */
  lemma RescaledNeg(x: FixedPoint, n: int)
    ensures Rescaled(Neg(x), n).Success? == Rescaled(x, n).Success?
    ensures Rescaled(x, n).Success? ==> Rescaled(Neg(x), n).value == -Rescaled(x, n).value
  {
    if n != x.precision && n >= 0 && x.precision >= 0 {
      var scale, d := Pow10(n), Pow10(x.precision);
      assert Rescaled(x, n) == Success(TruncDiv(x.base * scale, d));
      assert Rescaled(Neg(x), n) == Success(TruncDiv(-x.base * scale, d));
      assert -x.base * scale == -(x.base * scale);
      TruncDivNeg(x.base * scale, d);
    }
  }

  /** `neg()`: the opposite number at the same precision. */
  function Neg(x: FixedPoint): (r: FixedPoint)
    ensures r.precision == x.precision && r.base == -x.base
    ensures x.precision >= 0 ==> RealValue(r) == -RealValue(x)
  {
    FixedPoint(-x.base, x.precision)
  }

  lemma NegInvolutive(x: FixedPoint)
    ensures Neg(Neg(x)) == x
  {
  }

  /** `abs()`: the magnitude at the same precision. */
  function Abs(x: FixedPoint): (r: FixedPoint)
    ensures r.precision == x.precision && r.base >= 0
    ensures r.base == x.base || r.base == -x.base
    ensures x.precision >= 0 ==> RealValue(r) >= 0.0
  {
    FixedPoint(FixedMath.Abs(x.base), x.precision)
  }

  /** `toString()`: the raw scaled integer, which `BigInt` reads back. */
  function ToString(x: FixedPoint): (s: string)
    ensures ParseBigInt(s) == Success(x.base)
  {
    ParseIntToString(x.base);
    IntToString(x.base)
  }

  /** `toJSON()`: the same text as `toString()`. */
  function ToJSON(x: FixedPoint): (s: string)
    ensures ParseBigInt(s) == Success(x.base)
  {
    ToString(x)
  }

  /** `toDecimalString()`: the base's digits, left-padded with '0' to at
      least precision + 1 characters, with a '.' inserted before the last
      `precision` characters (no '.' when the precision is 0). */
  function ToDecimalString(x: FixedPoint): string {
    if x.precision == 0 then Padded(x) else PointBefore(Padded(x), x.precision)
  }

  /** `base.toString().padStart(precision + 1, '0')`. */
  function Padded(x: FixedPoint): string {
    PadStart(IntToString(x.base), x.precision + 1, '0')
  }

  /** `str.slice(0, -p) + '.' + str.slice(-p)`; `PointBeforeParts` gives
      its value. */
  function PointBefore(str: string, p: int): string {
    Slice(str, 0, -p) + "." + SliceFrom(str, -p)
  }

  /** For 0 < p < |str| the '.' goes before the last p characters. */
  lemma PointBeforeParts(str: string, p: nat)
    requires 0 < p < |str|
    ensures PointBefore(str, p) == str[..|str| - p] + "." + str[|str| - p..]
  {
    SliceFromEnd(str, p);
  }

  /** The two halves `toDecimalString` puts around its '.' when the
      precision is positive. */
  lemma DecimalStringParts(x: FixedPoint)
    requires x.precision > 0
    ensures |Padded(x)| >= x.precision + 1
    ensures ToDecimalString(x) == IntegerDigits(x) + "." + FractionDigits(x)
  {
    PointBeforeParts(Padded(x), x.precision);
  }

  /** The padded text before its last `precision` characters. */
  function IntegerDigits(x: FixedPoint): string
    requires x.precision >= 0
  {
    var str := Padded(x);
    str[..|str| - x.precision]
  }

  /** The last `precision` characters of the padded text. */
  function FractionDigits(x: FixedPoint): (r: string)
    requires x.precision >= 0
    ensures |r| == x.precision
  {
    var str := Padded(x);
    str[|str| - x.precision..]
  }

  /** With precision 0 the rendering is the base's own digits; otherwise it
      is a non-empty integer part, exactly one '.', and exactly `precision`
      characters after it. */
  lemma DecimalStringShape(x: FixedPoint)
    ensures x.precision == 0 ==> ToDecimalString(x) == IntToString(x.base)
    ensures x.precision > 0 ==>
      var r, p := ToDecimalString(x), x.precision;
      |r| >= p + 2 && r[|r| - p - 1] == '.' &&
      forall i :: 0 <= i < |r| && i != |r| - p - 1 ==> r[i] != '.'
  {
    if x.precision > 0 {
      var str, p := Padded(x), x.precision;
      var k := |str| - p;
      DecimalStringParts(x);
      var r := ToDecimalString(x);
      assert r == str[..k] + "." + str[k..];
      PaddedNoPoint(x);
      PointOnce(str, k);
      assert |r| == |str| + 1 && k == |r| - p - 1;
    }
  }

  /** No '.' in the padded digits: only '0', '-' and digits. */
  lemma PaddedNoPoint(x: FixedPoint)
    ensures '.' !in Padded(x)
  {
    var s, str := IntToString(x.base), Padded(x);
    assert str[|str| - |s|..] == s;
    forall i | 0 <= i < |str| ensures str[i] != '.' {
      if i >= |str| - |s| {
        assert str[i] == s[i - (|str| - |s|)];
      }
    }
  }

  /** The rendering the library's own test expects. */
  lemma DecimalStringExample()
    ensures ToDecimalString(FixedPoint(1000, 3)) == "1.000"
  {
    assert NatToString(10) == "10";
    assert NatToString(100) == "100";
    assert IntToString(1000) == "1000";
    assert PadStart("1000", 4, '0') == "1000";
  }

  /** A base with fewer digits than the precision is padded with zeros. */
  lemma DecimalStringSmallBase()
    ensures ToDecimalString(FixedPoint(1, 5)) == "0.00001"
  {
    assert IntToString(1) == "1";
    assert PadStart("1", 6, '0') == "000001";
  }

  lemma DecimalStringNegative()
    ensures ToDecimalString(FixedPoint(-112312, 5)) == "-1.12312"
  {
    assert NatToString(11) == "11";
    assert NatToString(112) == "112";
    assert NatToString(1123) == "1123";
    assert NatToString(11231) == "11231";
    assert IntToString(-112312) == "-112312";
    assert PadStart("-112312", 6, '0') == "-112312";
  }

  lemma DecimalStringNegativeFraction()
    ensures ToDecimalString(FixedPoint(-15, 1)) == "-1.5"
  {
    assert NatToString(15) == "15";
    assert IntToString(-15) == "-15";
    assert PadStart("-15", 2, '0') == "-15";
  }

  /** A negative base with fewer digits than the precision is padded in
      front of its '-' sign. */
  lemma DecimalStringSmallNegative()
    ensures ToDecimalString(FixedPoint(-1, 5)) == "0.000-1"
  {
    assert IntToString(-1) == "-1";
    assert PadStart("-1", 6, '0') == "0000-1";
    PointBeforeParts("0000-1", 5);
    assert "0000-1"[..1] == "0" && "0000-1"[1..] == "000-1";
  }
}
