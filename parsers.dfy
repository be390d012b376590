/** The parsers of src/parsers.ts: they turn decimal text, exponent notation,
    bigints and `[base, precision]` tuples into `(base, precision)` pairs, and
    `FP` turns any operator argument into a value. */
module Parsers {
  import opened Results
  import opened JsBigInt
  import opened JsString
  import FixedMath
  import opened FixedPointValue

  /** `parsePrecision`: `BigInt(precision)`, which leaves an integral
      precision as it is. */
  function ParsePrecision(precision: int): (r: int)
    ensures r == precision
  {
    precision
  }

  /** `parseDecimalString`: the text before the first '.' is the integer
      part I, the text between the first and a possible second '.' is the
      fraction D (further segments are dropped); the pair is
      `(BigInt(I) * 10^|D| + BigInt(D), |D|)`.  The fraction is added even
      when I is negative. */
  function ParseDecimalString(decimal: string): (r: Result<(int, int)>)
    ensures r.Success? ==> r.value.1 >= 0
    ensures r.Failure? ==> r.error == BigIntSyntax
  {
    var parts := Split(decimal, '.');
    ParseDecimalFrom(parts[0], if |parts| > 1 then parts[1] else "")
  }

  /** The pair for integer part i and fraction d. */
  function ParseDecimalFrom(i: string, d: string): (r: Result<(int, int)>)
    ensures r.Success? <==> ParseBigInt(i).Success? && ParseBigInt(d).Success?
    ensures r.Success? ==> r.value == (ParseBigInt(i).value * Pow10(|d|) + ParseBigInt(d).value, |d|)
    ensures r.Failure? ==> r.error == BigIntSyntax
  {
    var p := |d|;
    var whole :- ParseBigInt(i);
    var frac :- ParseBigInt(d);
    Success((whole * Pow10(p) + frac, p))
  }

  lemma ParseDecimalFromValues(i: string, d: string, whole: int, frac: int)
    requires ParseBigInt(i) == Success(whole) && ParseBigInt(d) == Success(frac)
    ensures ParseDecimalFrom(i, d) == Success((whole * Pow10(|d|) + frac, |d|))
  {
  }

  /** Integer part, '.', fraction: integer part * 10^|fraction| + fraction,
      at precision |fraction|. */
  lemma ParseDecimalParts(i: string, d: string)
    requires '.' !in i && '.' !in d
    ensures ParseDecimalString(i + "." + d) == ParseDecimalFrom(i, d)
  {
    SplitAfterSegment(i, '.', d);
  }

  /** Whatever follows a second '.' is ignored. */
  lemma ParseDecimalExtraPoints(i: string, d: string, rest: string)
    requires '.' !in i && '.' !in d
    ensures ParseDecimalString(i + "." + d + "." + rest) == ParseDecimalString(i + "." + d)
  {
    SplitAfterSegment(i, '.', d + "." + rest);
    assert i + "." + d + "." + rest == i + "." + (d + "." + rest);
    SplitAfterSegment(d, '.', rest);
    ParseDecimalParts(i, d);
  }

  /** Text without a '.' parses as `BigInt(text)` at precision 0. */
  lemma ParseDecimalNoPoint(s: string)
    requires '.' !in s
    ensures var r := ParseDecimalString(s);
      (r.Success? <==> ParseBigInt(s).Success?) &&
      (r.Success? ==> r.value == (ParseBigInt(s).value, 0))
  {
  }

  /** A negative integer part gets its fraction added, not subtracted:
      "-k.d" parses as -k * 10^|d| + d. */
  lemma ParseDecimalNegativeParts(k: string, d: string)
    requires IsDigits(k) && |k| > 0 && IsDigits(d)
    ensures ParseDecimalString("-" + k + "." + d) ==
      Success((-(DigitsValue(k) as int) * Pow10(|d|) + DigitsValue(d), |d|))
  {
    NoPointInDigits(k);
    NoPointInDigits(d);
    assert '.' !in "-" + k;
    ParseDecimalFromNegative(k, d);
    ParseDecimalParts("-" + k, d);
  }

  lemma NoPointInDigits(s: string)
    requires IsDigits(s)
    ensures '.' !in s
  {
    assert forall j :: 0 <= j < |s| ==> IsDigit(s[j]);
  }

  lemma ParseDecimalFromNegative(k: string, d: string)
    requires IsDigits(k) && |k| > 0 && IsDigits(d)
    ensures ParseDecimalFrom("-" + k, d) ==
      Success((-(DigitsValue(k) as int) * Pow10(|d|) + DigitsValue(d), |d|))
  {
    var i, whole, frac := "-" + k, -(DigitsValue(k) as int), DigitsValue(d);
    assert i[0] == '-' && i[1..] == k;
    ParseDecimalFromValues(i, d, whole, frac);
  }

  /** "-1.5" parses as -5 at precision 1. */
  lemma ParseDecimalNegative()
    ensures ParseDecimalString("-1.5") == Success((-5, 1))
  {
    ParseDigitsExample();
    ParseDecimalNegativeParts("1", "5");
    assert "-" + "1" + "." + "5" == "-1.5";
  }

  /** "-0.5" parses as +5 at precision 1: the sign of a zero integer part
      is lost. */
  lemma ParseDecimalNegativeZero()
    ensures ParseDecimalString("-0.5") == Success((5, 1))
  {
    ParseDigitsExample();
    ParseDecimalNegativeParts("0", "5");
    assert "-" + "0" + "." + "5" == "-0.5";
  }

  lemma ParseDigitsExample()
    ensures IsDigits("0") && IsDigits("1") && IsDigits("5")
    ensures DigitsValue("0") == 0 && DigitsValue("1") == 1 && DigitsValue("5") == 5
    ensures Pow10(|"5"|) == 10
  {
  }

  /** Rendering a value with `toDecimalString` and parsing the text back
      gives the same pair, for every precision-0 value and every value with
      a non-negative base. */
  lemma DecimalStringRoundTrip(x: FixedPoint)
    requires x.precision >= 0 && (x.base >= 0 || x.precision == 0)
    ensures ParseDecimalString(ToDecimalString(x)) == Success((x.base, x.precision))
  {
    if x.precision == 0 {
      DecimalStringShape(x);
      ParseIntToString(x.base);
      ParseDecimalNoPoint(IntToString(x.base));
    } else {
      FractionRoundTrip(x.base, x.precision);
    }
  }

  lemma FractionRoundTrip(n: nat, p: nat)
    requires p > 0
    ensures ParseDecimalString(ToDecimalString(FixedPoint(n, p))) == Success((n, p))
  {
    var x := FixedPoint(n, p);
    var I, F := IntegerDigits(x), FractionDigits(x);
    PaddedHalves(x);
    NoPointInDigits(I);
    NoPointInDigits(F);
    DecimalStringParts(x);
    ParseDecimalParts(I, F);
    ParseDecimalDigits(I, F);
  }

  /** The two halves of the padded digits of a non-negative base are digit
      strings that together denote the base. */
  lemma PaddedHalves(x: FixedPoint)
    requires x.base >= 0 && x.precision > 0
    ensures IsDigits(IntegerDigits(x)) && IsDigits(FractionDigits(x))
    ensures DigitsValue(IntegerDigits(x)) * Pow10(x.precision) + DigitsValue(FractionDigits(x)) == x.base
  {
    var str, p := Padded(x), x.precision;
    assert |str| >= p + 1;
    PaddedValue(x);
    SplitDigits(str, p);
    assert IntegerDigits(x) == str[..|str| - p] && FractionDigits(x) == str[|str| - p..];
  }

  /** Left-padding the digits of n with zeros keeps their value. */
  lemma PaddedValue(x: FixedPoint)
    requires x.base >= 0
    ensures IsDigits(Padded(x)) && DigitsValue(Padded(x)) == x.base
  {
    var s, str := IntToString(x.base), Padded(x);
    var z := str[..|str| - |s|];
    assert str == z + s;
    ZerosValue(z);
    DigitsValueAppend(z, s);
  }

  lemma ParseDecimalDigits(i: string, d: string)
    requires IsDigits(i) && IsDigits(d)
    ensures ParseDecimalFrom(i, d) == Success((DigitsValue(i) * Pow10(|d|) + DigitsValue(d), |d|))
  {
  }

  /** The round trip fails for a negative base with a fraction: (-15, 1)
      renders as "-1.5", which parses as (-5, 1). */
  lemma DecimalStringNegativeRoundTrip()
    ensures ParseDecimalString(ToDecimalString(FixedPoint(-15, 1))) == Success((-5, 1))
  {
    DecimalStringNegativeFraction();
    ParseDecimalNegative();
  }

  /** `base.toString()`: a text is itself, and a bigint's text is one that
      `BigInt` reads back as that bigint. */
  function BaseString(base: Base): (r: string)
    ensures base.Text? ==> r == base.text
    ensures base.Big? ==> ParseBigInt(r) == Success(base.value)
  {
    match base
    case Text(s) => s
    case Big(n) => ParseIntToString(n); IntToString(n)
  }

  /** `parseBase`: exponent notation `<mantissa>e<pow>` (text after a second
      'e' dropped), decimal text, or an integer at precision 0. */
  function ParseBase(base: Base): (r: Result<(int, int)>)
    ensures r.Success? ==> r.value.1 >= 0
  {
    var s := BaseString(base);
    if 'e' in s then
      var parts := Split(s, 'e');
      var mantissa :- ParseDecimalString(parts[0]);
      ParseExponent(mantissa, parts[1])
    else if '.' in s then
      ParseDecimalString(s)
    else
      var n :- ParseBigInt(s);
      Success((n, 0))
  }

  /** The exponent-notation branch of `parseBase`, once the mantissa text
      has been parsed, for exponent text pow.  A negative exponent adds to the mantissa's
      precision; a non-negative one scales the mantissa's base by
      `10^(pow - p)` at precision 0, which throws when pow is below the
      mantissa's precision p. */
  function ParseExponent(mantissa: (int, int), pow: string): (r: Result<(int, int)>)
    requires mantissa.1 >= 0
    ensures r.Success? ==> r.value.1 >= 0
  {
    var b, p := mantissa.0, mantissa.1;
    if |pow| > 0 && pow[0] == '-' then
      var e :- NumberToBigInt(pow);
      Success((b, p + -e))
    else
      var e :- NumberToBigInt(pow);
      var scale :- Exp10(e - p);
      Success((b * scale, 0))
  }

  /** Text with neither 'e' nor '.' parses as `BigInt(text)` at precision 0. */
  lemma ParseBaseInteger(s: string)
    requires 'e' !in s && '.' !in s
    ensures var r := ParseBase(Text(s));
      (r.Success? <==> ParseBigInt(s).Success?) &&
      (r.Success? ==> r.value == (ParseBigInt(s).value, 0))
  {
  }

  /** A bigint argument is taken as it is, at precision 0. */
  lemma ParseBaseBigInt(n: int)
    ensures ParseBase(Big(n)) == Success((n, 0))
  {
    var s := IntToString(n);
    assert 'e' !in s && '.' !in s;
    ParseIntToString(n);
  }

  /** Text with one 'e' is read as a decimal mantissa and an exponent. */
  lemma ParseBaseExponent(m: string, pow: string)
    requires 'e' !in m && 'e' !in pow
    ensures var r := ParseBase(Text(m + "e" + pow));
      (ParseDecimalString(m).Failure? ==> r == Failure(ParseDecimalString(m).error)) &&
      (ParseDecimalString(m).Success? ==> r == ParseExponent(ParseDecimalString(m).value, pow))
  {
    SplitAfterSegment(m, 'e', pow);
  }

  /** `<m>e-<k>`: the mantissa's base, at the mantissa's precision plus k. */
  lemma ParseExponentNegative(b: int, p: nat, k: string)
    requires IsDigits(k) && |k| > 0
    ensures ParseExponent((b, p), "-" + k) == Success((b, p + DigitsValue(k)))
  {
    NumberToBigIntNegative(k);
    assert ("-" + k)[0] == '-';
  }

  /** `<m>e<k>` with k >= p, the mantissa's precision: the mantissa's base
      times 10^(k - p), at precision 0; with k < p it throws. */
  lemma ParseExponentPositive(b: int, p: nat, k: string)
    requires IsDigits(k)
    ensures ParseExponent((b, p), k) ==
      if DigitsValue(k) >= p then Success((b * Pow10(DigitsValue(k) - p), 0))
      else Failure(NegativeExponent)
  {
    assert |k| > 0 ==> k[0] != '-' by { assert |k| > 0 ==> IsDigit(k[0]); }
  }

  /** A `defaultPrecision` counts only when it is truthy (given and not 0). */
  predicate Truthy(precision: Option<int>) {
    precision.Some? && precision.value != 0
  }

  /** `parseNumeric`: a bare base is wrapped as `[base, defaultPrecision]`
      when that precision is truthy; a tuple `[base, t]` is parsed and its
      base rescaled (truncating) from the parsed precision to t. */
  function ParseNumeric(numeric: Numeric, defaultPrecision: Option<int>): (r: Result<(int, int)>)
    ensures r.Success? ==> r.value.1 >= 0
    ensures numeric.Scaled? && r.Success? ==> r.value.1 == numeric.precision
  {
    var wrapped :=
      if Truthy(defaultPrecision) && numeric.Plain? then Scaled(numeric.base, defaultPrecision.value)
      else numeric;
    match wrapped
    case Scaled(b, t) =>
      var parsed :- ParseBase(b);
      Rescale(parsed, ParsePrecision(t))
    case Plain(b) =>
      ParseBase(b)
  }

  /** The tuple branch of `parseNumeric` after its base is parsed: the
      parsed pair's base rewritten at precision t. */
  function Rescale(parsed: (int, int), t: int): (r: Result<(int, int)>)
    ensures r.Success? ==> r.value.1 == t
  {
    var base :- FixedMath.ToPrecision(parsed.0, t, parsed.1);
    Success((base, t))
  }

  /** Rescaling up to t: the base times 10^(t - p), exactly. */
  lemma RescaleWidens(v: int, p: nat, t: int)
    requires t >= p
    ensures Rescale((v, p), t) == Success((v * Pow10(t - p), t))
  {
    FixedMath.ToPrecisionWiden(v, p, t - p);
  }

  /** Rescaling down to t >= 0: the base divided by 10^(p - t), truncated
      toward zero, without an error; a negative t throws. */
  lemma RescaleNarrows(v: int, p: nat, t: int)
    requires t < p
    ensures t < 0 ==> Rescale((v, p), t) == Failure(NegativeExponent)
    ensures t >= 0 ==> Rescale((v, p), t) == Success((TruncDiv(v, Pow10(p - t)), t))
  {
    if t >= 0 {
      FixedMath.ToPrecisionNarrow(v, t, p - t);
    }
  }

  /** A tuple `[b, t]` is its parsed base rescaled to t, whatever the
      defaultPrecision; a base that does not parse makes it fail the same way. */
  lemma ParseNumericScaled(b: Base, t: int, defaultPrecision: Option<int>)
    ensures ParseNumeric(Scaled(b, t), defaultPrecision) ==
      if ParseBase(b).Success? then Rescale(ParseBase(b).value, t) else Failure(ParseBase(b).error)
  {
  }

  /** Decimal text without an 'e' takes the decimal branch: integer part
      * 10^|fraction| + fraction, at precision |fraction|. */
  lemma ParseBaseDecimal(i: string, d: string)
    requires 'e' !in i && 'e' !in d && '.' !in i && '.' !in d
    ensures ParseBase(Text(i + "." + d)) == ParseDecimalFrom(i, d)
  {
    var s := i + "." + d;
    assert 'e' !in s && '.' in s by { assert s[|i|] == '.'; }
    ParseDecimalParts(i, d);
  }

  /** "1.239" is 1239 at precision 3. */
  lemma ParseBaseDecimalExample()
    ensures ParseBase(Text("1.239")) == Success((1239, 3))
  {
    ParseDecimalFromExample();
    assert "1" + "." + "239" == "1.239";
    ParseBaseDecimal("1", "239");
  }

  lemma ParseDecimalFromExample()
    ensures ParseDecimalFrom("1", "239") == Success((1239, 3))
  {
    assert IsDigits("1") && DigitsValue("1") == 1;
    assert IsDigits("239") && DigitsValue("239") == 239 by {
      assert "239"[..2] == "23" && DigitsValue("23") == 23;
    }
    assert |"239"| == 3 && Pow10(3) == 1000;
    ParseDecimalDigits("1", "239");
  }

  /** Surplus fractional digits are truncated: `["1.239", 2]` gives 1.23. */
  lemma ParseNumericTruncates()
    ensures ParseNumeric(Scaled(Text("1.239"), 2), None) == Success((123, 2))
  {
    ParseBaseDecimalExample();
    RescaleNarrows(1239, 3, 2);
    assert TruncDiv(1239, 10) == 123;
  }

  /** A bare base keeps its own precision unless defaultPrecision is truthy,
      so a defaultPrecision of 0 is the same as none. */
  lemma ParseNumericDefault(b: Base, defaultPrecision: Option<int>)
    ensures ParseNumeric(Plain(b), defaultPrecision) ==
      if Truthy(defaultPrecision) then ParseNumeric(Scaled(b, defaultPrecision.value), None)
      else ParseBase(b)
    ensures ParseNumeric(Plain(b), Some(0)) == ParseNumeric(Plain(b), None) == ParseBase(b)
  {
  }

  /** `FP`: an existing value is returned unchanged; anything else becomes
      the value `parseNumeric` describes. */
  function FP(arg: Operand, defaultPrecision: Option<int>): (r: Result<FixedPoint>)
    ensures arg.Value? ==> r == Success(arg.fp)
    ensures arg.Num? ==> r.Success? == ParseNumeric(arg.numeric, defaultPrecision).Success?
    ensures arg.Num? && r.Success? ==>
      (r.value.base, r.value.precision) == ParseNumeric(arg.numeric, defaultPrecision).value
    ensures arg.Num? && r.Success? ==> r.value.precision >= 0
  {
    match arg
    case Value(x) => Success(x)
    case Num(n) =>
      var parsed :- ParseNumeric(n, defaultPrecision);
      Success(FixedPoint(parsed.0, parsed.1))
  }
}
