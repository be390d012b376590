/** The binary operators of the `FixedPoint` class in src/FixedPoint.ts.
    Every operator parses its argument with `FP`, picks a result precision
    (an explicit `resultPrecision` wins, otherwise the class's
    `precisionResolution`, which is 'left'), and works on the two bases
    rewritten at that precision with `toPrecision`.  A thrown RangeError or
    SyntaxError is a `Failure`. */
module FixedPointLeft {
  import opened Results
  import opened JsBigInt
  import FixedMath
  import opened FixedPointValue
  import opened Parsers

  /** `PrecisionResolution`: which operand's precision the result takes. */
  datatype PrecisionResolution = Left | Right | MinPrecision | MaxPrecision

  /** The class's own `precisionResolution`. */
  const DefaultResolution: PrecisionResolution := Left

  /** `pickPrecision`: the override when one is given, otherwise the
      receiver's precision, the argument's, or the smaller or larger of the
      two as the resolution says. */
  function PickPrecision(pA: int, pB: int, resolution: PrecisionResolution, resultPrecision: Option<int>): (n: int)
    ensures resultPrecision.Some? ==> n == resultPrecision.value
    ensures resultPrecision.None? && resolution == Left ==> n == pA
    ensures resultPrecision.None? && resolution == Right ==> n == pB
    ensures resultPrecision.None? && resolution == MinPrecision ==> n <= pA && n <= pB && (n == pA || n == pB)
    ensures resultPrecision.None? && resolution == MaxPrecision ==> n >= pA && n >= pB && (n == pA || n == pB)
  {
    if resultPrecision.Some? then
      ParsePrecision(resultPrecision.value)
    else
      match resolution
      case Left => pA
      case Right => pB
      case MinPrecision => FixedMath.Min([pA, pB]).value
      case MaxPrecision => FixedMath.Max([pA, pB]).value
  }

  /** The picked precision n and both bases rewritten at n, in the order
      the operators compute them (the receiver's first). */
  function Aligned(a: FixedPoint, b: FixedPoint, resolution: PrecisionResolution, resultPrecision: Option<int>): (r: Result<(int, int, int)>)
    ensures r.Success? ==> r.value.2 == PickPrecision(a.precision, b.precision, resolution, resultPrecision)
    ensures r.Failure? ==> r.error == NegativeExponent
  {
    var n := PickPrecision(a.precision, b.precision, resolution, resultPrecision);
    var aBase :- Rescaled(a, n);
    var bBase :- Rescaled(b, n);
    Success((aBase, bBase, n))
  }

  /** `add`: the sum of the two aligned bases at the picked precision. */
  function Add(a: FixedPoint, arg: Operand, resolution: PrecisionResolution, resultPrecision: Option<int>): (r: Result<FixedPoint>)
    ensures resultPrecision.Some? && r.Success? ==> r.value.precision == resultPrecision.value
    ensures resultPrecision.None? && resolution == Left && r.Success? ==> r.value.precision == a.precision
  {
    var b :- FP(arg, None);
    var t :- Aligned(a, b, resolution, resultPrecision);
    Success(FixedPoint(t.0 + t.1, t.2))
  }

  /** `sub`: the difference of the two aligned bases at the picked precision. */
  function Sub(a: FixedPoint, arg: Operand, resolution: PrecisionResolution, resultPrecision: Option<int>): (r: Result<FixedPoint>)
    ensures resultPrecision.Some? && r.Success? ==> r.value.precision == resultPrecision.value
    ensures resultPrecision.None? && resolution == Left && r.Success? ==> r.value.precision == a.precision
  {
    var b :- FP(arg, None);
    var t :- Aligned(a, b, resolution, resultPrecision);
    Success(FixedPoint(t.0 - t.1, t.2))
  }

  /** `mul`: the product of the raw bases, which sits at precision pA + pB,
      rewritten at the picked precision. */
  function Mul(a: FixedPoint, arg: Operand, resolution: PrecisionResolution, resultPrecision: Option<int>): (r: Result<FixedPoint>)
    ensures resultPrecision.Some? && r.Success? ==> r.value.precision == resultPrecision.value
    ensures resultPrecision.None? && resolution == Left && r.Success? ==> r.value.precision == a.precision
  {
    var b :- FP(arg, None);
    var n := PickPrecision(a.precision, b.precision, resolution, resultPrecision);
    var base :- FixedMath.ToPrecision(a.base * b.base, n, a.precision + b.precision);
    Success(FixedPoint(base, n))
  }

  /** `div`: the receiver's base widened by pB digits, divided (truncating)
      by the argument's base, which leaves a quotient at precision pA; that
      quotient is rewritten at the picked precision. */
  function Div(a: FixedPoint, arg: Operand, resolution: PrecisionResolution, resultPrecision: Option<int>): (r: Result<FixedPoint>)
    ensures resultPrecision.Some? && r.Success? ==> r.value.precision == resultPrecision.value
    ensures resultPrecision.None? && resolution == Left && r.Success? ==> r.value.precision == a.precision
  {
    var b :- FP(arg, None);
    var n := PickPrecision(a.precision, b.precision, resolution, resultPrecision);
    var widened :- FixedMath.ToPrecision(a.base, a.precision + b.precision, a.precision);
    var quotient :- Quot(widened, b.base);
    var base :- FixedMath.ToPrecision(quotient, n, a.precision);
    Success(FixedPoint(base, n))
  }

  /** `eq`: the aligned bases are equal. */
  function Eq(a: FixedPoint, arg: Operand, resolution: PrecisionResolution, resultPrecision: Option<int>): (r: Result<bool>)
    ensures arg.Value? ==> (r.Success? <==> Aligned(a, arg.fp, resolution, resultPrecision).Success?)
  {
    var b :- FP(arg, None);
    var t :- Aligned(a, b, resolution, resultPrecision);
    Success(t.0 == t.1)
  }

  /** `gt`: the receiver's aligned base is the larger. */
  function Gt(a: FixedPoint, arg: Operand, resolution: PrecisionResolution, resultPrecision: Option<int>): (r: Result<bool>)
    ensures arg.Value? ==> (r.Success? <==> Aligned(a, arg.fp, resolution, resultPrecision).Success?)
  {
    var b :- FP(arg, None);
    var t :- Aligned(a, b, resolution, resultPrecision);
    Success(t.0 > t.1)
  }

  /** `lt`: the receiver's aligned base is the smaller. */
  function Lt(a: FixedPoint, arg: Operand, resolution: PrecisionResolution, resultPrecision: Option<int>): (r: Result<bool>)
    ensures arg.Value? ==> (r.Success? <==> Aligned(a, arg.fp, resolution, resultPrecision).Success?)
  {
    var b :- FP(arg, None);
    var t :- Aligned(a, b, resolution, resultPrecision);
    Success(t.0 < t.1)
  }

  /** `gte`. */
  function Gte(a: FixedPoint, arg: Operand, resolution: PrecisionResolution, resultPrecision: Option<int>): (r: Result<bool>)
    ensures arg.Value? ==> (r.Success? <==> Aligned(a, arg.fp, resolution, resultPrecision).Success?)
  {
    var b :- FP(arg, None);
    var t :- Aligned(a, b, resolution, resultPrecision);
    Success(t.0 >= t.1)
  }

  /** `lte`. */
  function Lte(a: FixedPoint, arg: Operand, resolution: PrecisionResolution, resultPrecision: Option<int>): (r: Result<bool>)
    ensures arg.Value? ==> (r.Success? <==> Aligned(a, arg.fp, resolution, resultPrecision).Success?)
  {
    var b :- FP(arg, None);
    var t :- Aligned(a, b, resolution, resultPrecision);
    Success(t.0 <= t.1)
  }

  // ---------------------------------------------------------------------
  // Alignment

  /** When both precisions are at most the picked one, alignment only
      widens: it succeeds, and each aligned base denotes its operand's value
      exactly. */
  lemma AlignedExact(a: FixedPoint, b: FixedPoint, resolution: PrecisionResolution, resultPrecision: Option<int>)
    requires var n := PickPrecision(a.precision, b.precision, resolution, resultPrecision);
      0 <= a.precision <= n && 0 <= b.precision <= n
    ensures var r, n := Aligned(a, b, resolution, resultPrecision), PickPrecision(a.precision, b.precision, resolution, resultPrecision);
      r.Success? &&
      r.value.0 == a.base * Pow10(n - a.precision) && r.value.1 == b.base * Pow10(n - b.precision) &&
      RealValue(FixedPoint(r.value.0, n)) == RealValue(a) && RealValue(FixedPoint(r.value.1, n)) == RealValue(b)
  {
    var n := PickPrecision(a.precision, b.precision, resolution, resultPrecision);
    RescaledWiden(a, n);
    RescaledWiden(b, n);
    RealValueScale(a.base, a.precision, n - a.precision);
    RealValueScale(b.base, b.precision, n - b.precision);
  }

  /** Alignment fails exactly when a precision it has to change between is
      negative. */
  lemma AlignedFails(a: FixedPoint, b: FixedPoint, resolution: PrecisionResolution, resultPrecision: Option<int>)
    ensures var n := PickPrecision(a.precision, b.precision, resolution, resultPrecision);
      Aligned(a, b, resolution, resultPrecision).Failure? <==>
        (n != a.precision && (n < 0 || a.precision < 0)) || (n != b.precision && (n < 0 || b.precision < 0))
  {
  }

  /** At any non-negative picked precision n (an override that narrows,
      such as `a.add(b, 0)`, included), alignment rewrites both bases at n:
      widened exactly, or truncated toward zero where an operand has more
      digits than n. */
  lemma AlignedAt(a: FixedPoint, b: FixedPoint, resolution: PrecisionResolution, resultPrecision: Option<int>)
    requires a.precision >= 0 && b.precision >= 0
    requires PickPrecision(a.precision, b.precision, resolution, resultPrecision) >= 0
    ensures var n := PickPrecision(a.precision, b.precision, resolution, resultPrecision);
      Aligned(a, b, resolution, resultPrecision) == Success((RescaledBase(a, n), RescaledBase(b, n), n))
  {
    var n := PickPrecision(a.precision, b.precision, resolution, resultPrecision);
    RescaledIsRescaledBase(a, n);
    RescaledIsRescaledBase(b, n);
  }

  /** Under the 'left' default the receiver's base is kept and the
      argument's is rewritten at the receiver's precision: widened exactly,
      or truncated toward zero when the argument has more digits. */
  lemma AlignedDefault(a: FixedPoint, b: FixedPoint)
    requires a.precision >= 0 && b.precision >= 0
    ensures Aligned(a, b, DefaultResolution, None) == Success((a.base, RescaledBase(b, a.precision), a.precision))
  {
    RescaledIsRescaledBase(b, a.precision);
  }

  // ---------------------------------------------------------------------
  // add and sub

  /** When the result precision is at least both operands' precisions, add
      is exact: the result denotes the sum of the two values. */
  lemma AddExact(a: FixedPoint, b: FixedPoint, resolution: PrecisionResolution, resultPrecision: Option<int>)
    requires var n := PickPrecision(a.precision, b.precision, resolution, resultPrecision);
      0 <= a.precision <= n && 0 <= b.precision <= n
    ensures var r := Add(a, Value(b), resolution, resultPrecision);
      r.Success? && r.value.precision == PickPrecision(a.precision, b.precision, resolution, resultPrecision) &&
      RealValue(r.value) == RealValue(a) + RealValue(b)
  {
    var n := PickPrecision(a.precision, b.precision, resolution, resultPrecision);
    AlignedExact(a, b, resolution, resultPrecision);
    var t := Aligned(a, b, resolution, resultPrecision).value;
    RealValueSum(t.0, t.1, n);
  }

  /** Under the same condition sub is exact. */
  lemma SubExact(a: FixedPoint, b: FixedPoint, resolution: PrecisionResolution, resultPrecision: Option<int>)
    requires var n := PickPrecision(a.precision, b.precision, resolution, resultPrecision);
      0 <= a.precision <= n && 0 <= b.precision <= n
    ensures var r := Sub(a, Value(b), resolution, resultPrecision);
      r.Success? && r.value.precision == PickPrecision(a.precision, b.precision, resolution, resultPrecision) &&
      RealValue(r.value) == RealValue(a) - RealValue(b)
  {
    var n := PickPrecision(a.precision, b.precision, resolution, resultPrecision);
    AlignedExact(a, b, resolution, resultPrecision);
    var t := Aligned(a, b, resolution, resultPrecision).value;
    RealValueDifference(t.0, t.1, n);
  }

  /** With no override, add keeps the receiver's precision and adds the
      argument's base as rewritten there, truncated when pB > pA. */
  lemma AddDefault(a: FixedPoint, b: FixedPoint)
    requires a.precision >= 0 && b.precision >= 0
    ensures Add(a, Value(b), DefaultResolution, None) ==
      Success(FixedPoint(a.base + RescaledBase(b, a.precision), a.precision))
  {
    AlignedDefault(a, b);
  }

  /** With no override, sub keeps the receiver's precision and subtracts
      the argument's base as rewritten there. */
  lemma SubDefault(a: FixedPoint, b: FixedPoint)
    requires a.precision >= 0 && b.precision >= 0
    ensures Sub(a, Value(b), DefaultResolution, None) ==
      Success(FixedPoint(a.base - RescaledBase(b, a.precision), a.precision))
  {
    AlignedDefault(a, b);
  }

  /** At any non-negative picked precision n, add is the sum of the two
      bases as rewritten at n, each truncated where it has more digits. */
  lemma AddAt(a: FixedPoint, b: FixedPoint, resolution: PrecisionResolution, resultPrecision: Option<int>)
    requires a.precision >= 0 && b.precision >= 0
    requires PickPrecision(a.precision, b.precision, resolution, resultPrecision) >= 0
    ensures var n := PickPrecision(a.precision, b.precision, resolution, resultPrecision);
      Add(a, Value(b), resolution, resultPrecision) == Success(FixedPoint(RescaledBase(a, n) + RescaledBase(b, n), n))
  {
    AlignedAt(a, b, resolution, resultPrecision);
  }

  /** Likewise sub is the difference of the two rewritten bases. */
  lemma SubAt(a: FixedPoint, b: FixedPoint, resolution: PrecisionResolution, resultPrecision: Option<int>)
    requires a.precision >= 0 && b.precision >= 0
    requires PickPrecision(a.precision, b.precision, resolution, resultPrecision) >= 0
    ensures var n := PickPrecision(a.precision, b.precision, resolution, resultPrecision);
      Sub(a, Value(b), resolution, resultPrecision) == Success(FixedPoint(RescaledBase(a, n) - RescaledBase(b, n), n))
  {
    AlignedAt(a, b, resolution, resultPrecision);
  }

  /** With a symmetric choice of precision (an override, or min or max),
      `a.add(b)` and `b.add(a)` are the same value, or fail the same way. */
  lemma AddCommutes(a: FixedPoint, b: FixedPoint, resolution: PrecisionResolution, resultPrecision: Option<int>)
    requires resultPrecision.Some? || resolution == MinPrecision || resolution == MaxPrecision
    ensures Add(a, Value(b), resolution, resultPrecision) == Add(b, Value(a), resolution, resultPrecision)
  {
    assert PickPrecision(a.precision, b.precision, resolution, resultPrecision)
        == PickPrecision(b.precision, a.precision, resolution, resultPrecision);
  }

  /** `a.sub(a)` is zero at the picked precision whenever that precision
      and a's are non-negative. */
  lemma SubSelf(a: FixedPoint, resolution: PrecisionResolution, resultPrecision: Option<int>)
    requires a.precision >= 0 && PickPrecision(a.precision, a.precision, resolution, resultPrecision) >= 0
    ensures Sub(a, Value(a), resolution, resultPrecision) ==
      Success(FixedPoint(0, PickPrecision(a.precision, a.precision, resolution, resultPrecision)))
  {
  }

  /** Subtracting b is adding its negation: truncation is symmetric about
      zero, so even a narrowing alignment agrees. */
  lemma SubIsAddNeg(a: FixedPoint, b: FixedPoint, resolution: PrecisionResolution, resultPrecision: Option<int>)
    ensures Sub(a, Value(b), resolution, resultPrecision) == Add(a, Value(Neg(b)), resolution, resultPrecision)
  {
    var n := PickPrecision(a.precision, b.precision, resolution, resultPrecision);
    RescaledNeg(b, n);
  }

  /** The 'left' default is asymmetric: 1.00 + 0.005 truncates the
      argument's extra digit and stays 1.00, while 0.005 + 1.00 is 1.005. */
  lemma AddLeftAsymmetric()
    ensures Add(FixedPoint(100, 2), Value(FixedPoint(5, 3)), DefaultResolution, None) == Success(FixedPoint(100, 2))
    ensures Add(FixedPoint(5, 3), Value(FixedPoint(100, 2)), DefaultResolution, None) == Success(FixedPoint(1005, 3))
  {
    FixedMath.ToPrecisionNarrow(5, 2, 1);
    assert TruncDiv(5, 10) == 0;
    FixedMath.ToPrecisionWiden(100, 2, 1);
  }

  // ---------------------------------------------------------------------
  // mul and div

  /** At precision pA + pB the product is exact; in general it is the raw
      product truncated to the picked precision. */
  lemma MulExact(a: FixedPoint, b: FixedPoint)
    requires a.precision >= 0 && b.precision >= 0
    ensures var r := Mul(a, Value(b), DefaultResolution, Some(a.precision + b.precision));
      r == Success(FixedPoint(a.base * b.base, a.precision + b.precision)) &&
      RealValue(r.value) == RealValue(a) * RealValue(b)
  {
    RealValueProduct(a.base, a.precision, b.base, b.precision);
  }

  /** With no override the product keeps the receiver's precision: the raw
      product divided by 10^pB, truncated toward zero. */
  lemma MulDefault(a: FixedPoint, b: FixedPoint)
    requires a.precision >= 0 && b.precision >= 0
    ensures Mul(a, Value(b), DefaultResolution, None) ==
      Success(FixedPoint(TruncDiv(a.base * b.base, Pow10(b.precision)), a.precision))
  {
    FixedMath.ToPrecisionNarrow(a.base * b.base, a.precision, b.precision);
  }

  /** The quotient before its final rescaling: the receiver's base times
      10^pB, divided by the argument's base and truncated, which is a value
      at precision pA. */
  lemma DivQuotient(a: FixedPoint, b: FixedPoint, resolution: PrecisionResolution, resultPrecision: Option<int>)
    requires a.precision >= 0 && b.precision >= 0 && b.base != 0
    ensures var n := PickPrecision(a.precision, b.precision, resolution, resultPrecision);
      var q := TruncDiv(a.base * Pow10(b.precision), b.base);
      Div(a, Value(b), resolution, resultPrecision) ==
        if n < 0 && n != a.precision then Failure(NegativeExponent)
        else Success(FixedPoint(FixedMath.ToPrecision(q, n, a.precision).value, n))
  {
    FixedMath.ToPrecisionWiden(a.base, a.precision, b.precision);
  }

  /** With no override the quotient is truncated to the receiver's
      precision: q * b.base falls short of a.base * 10^pB by less than
      |b.base|, toward zero. */
  lemma DivDefault(a: FixedPoint, b: FixedPoint)
    requires a.precision >= 0 && b.precision >= 0 && b.base != 0
    ensures var r := Div(a, Value(b), DefaultResolution, None);
      r.Success? && r.value.precision == a.precision &&
      IsTruncQuotient(a.base * Pow10(b.precision), b.base, r.value.base)
  {
    DivQuotient(a, b, DefaultResolution, None);
  }

  /** Dividing by a zero base throws, whatever the result precision. */
  lemma DivByZero(a: FixedPoint, b: FixedPoint, resolution: PrecisionResolution, resultPrecision: Option<int>)
    requires a.precision >= 0 && b.precision >= 0 && b.base == 0
    ensures Div(a, Value(b), resolution, resultPrecision) == Failure(DivisionByZero)
  {
    FixedMath.ToPrecisionWiden(a.base, a.precision, b.precision);
  }

  /** 1 / 3 at precision 9 is 0.333333333. */
  lemma DivExample()
    ensures Div(FixedPoint(1000000000, 9), Value(FixedPoint(3000000000, 9)), DefaultResolution, None)
      == Success(FixedPoint(333333333, 9))
  {
    var a, b := FixedPoint(1000000000, 9), FixedPoint(3000000000, 9);
    DivDefault(a, b);
    var r := Div(a, Value(b), DefaultResolution, None).value;
    OneThirdQuotient();
    TruncQuotientUnique(a.base * Pow10(9), b.base, r.base, 333333333);
  }

  /** 10^18 / (3 * 10^9), truncated. */
  lemma OneThirdQuotient()
    ensures TruncDiv(1000000000 * Pow10(9), 3000000000) == 333333333
    ensures IsTruncQuotient(1000000000 * Pow10(9), 3000000000, 333333333)
  {
    assert Pow10(9) == 1000000000;
    var x := 1000000000 * Pow10(9);
    assert IsTruncQuotient(x, 3000000000, 333333333);
    TruncQuotientUnique(x, 3000000000, 333333333, TruncDiv(x, 3000000000));
  }

  // ---------------------------------------------------------------------
  // Comparisons

  /** The five comparisons succeed or fail together; on success exactly
      one of lt, eq and gt holds, gte is the negation of lt and lte the
      negation of gt. */
  lemma Trichotomy(a: FixedPoint, arg: Operand, resolution: PrecisionResolution, resultPrecision: Option<int>)
    ensures var e := Eq(a, arg, resolution, resultPrecision);
      Lt(a, arg, resolution, resultPrecision).Success? == e.Success? &&
      Gt(a, arg, resolution, resultPrecision).Success? == e.Success? &&
      Gte(a, arg, resolution, resultPrecision).Success? == e.Success? &&
      Lte(a, arg, resolution, resultPrecision).Success? == e.Success?
    ensures Eq(a, arg, resolution, resultPrecision).Success? ==>
      var lt, eq, gt := Lt(a, arg, resolution, resultPrecision).value, Eq(a, arg, resolution, resultPrecision).value,
        Gt(a, arg, resolution, resultPrecision).value;
      (lt || eq || gt) && !(lt && eq) && !(lt && gt) && !(eq && gt) &&
      Gte(a, arg, resolution, resultPrecision).value == !lt &&
      Lte(a, arg, resolution, resultPrecision).value == !gt
  {
  }

  /** When neither operand is truncated by the alignment, the comparisons
      compare the values the operands denote. */
  lemma CompareValues(a: FixedPoint, b: FixedPoint, resolution: PrecisionResolution, resultPrecision: Option<int>)
    requires var n := PickPrecision(a.precision, b.precision, resolution, resultPrecision);
      0 <= a.precision <= n && 0 <= b.precision <= n
    ensures Eq(a, Value(b), resolution, resultPrecision) == Success(RealValue(a) == RealValue(b))
    ensures Lt(a, Value(b), resolution, resultPrecision) == Success(RealValue(a) < RealValue(b))
    ensures Gt(a, Value(b), resolution, resultPrecision) == Success(RealValue(a) > RealValue(b))
  {
    var n := PickPrecision(a.precision, b.precision, resolution, resultPrecision);
    AlignedExact(a, b, resolution, resultPrecision);
    var t := Aligned(a, b, resolution, resultPrecision).value;
    RealValueOrder(t.0, t.1, n);
    RealValueOrder(t.1, t.0, n);
  }

  /** With no override, every comparison compares the receiver's base with
      the argument's as rewritten at the receiver's precision. */
  lemma CompareDefault(a: FixedPoint, b: FixedPoint)
    requires a.precision >= 0 && b.precision >= 0
    ensures var B := RescaledBase(b, a.precision);
      Eq(a, Value(b), DefaultResolution, None) == Success(a.base == B) &&
      Gt(a, Value(b), DefaultResolution, None) == Success(a.base > B) &&
      Lt(a, Value(b), DefaultResolution, None) == Success(a.base < B) &&
      Gte(a, Value(b), DefaultResolution, None) == Success(a.base >= B) &&
      Lte(a, Value(b), DefaultResolution, None) == Success(a.base <= B)
  {
    AlignedDefault(a, b);
  }

  /** At any non-negative picked precision n, every comparison compares
      the two bases as rewritten at n. */
  lemma CompareAt(a: FixedPoint, b: FixedPoint, resolution: PrecisionResolution, resultPrecision: Option<int>)
    requires a.precision >= 0 && b.precision >= 0
    requires PickPrecision(a.precision, b.precision, resolution, resultPrecision) >= 0
    ensures var n := PickPrecision(a.precision, b.precision, resolution, resultPrecision);
      var A, B := RescaledBase(a, n), RescaledBase(b, n);
      Eq(a, Value(b), resolution, resultPrecision) == Success(A == B) &&
      Gt(a, Value(b), resolution, resultPrecision) == Success(A > B) &&
      Lt(a, Value(b), resolution, resultPrecision) == Success(A < B) &&
      Gte(a, Value(b), resolution, resultPrecision) == Success(A >= B) &&
      Lte(a, Value(b), resolution, resultPrecision) == Success(A <= B)
  {
    AlignedAt(a, b, resolution, resultPrecision);
  }

  /** Under the 'left' default the argument is truncated before it is
      compared: 1.00 equals 1.005, but 1.005 does not equal 1.00. */
  lemma EqLeftAsymmetric()
    ensures Eq(FixedPoint(100, 2), Value(FixedPoint(1005, 3)), DefaultResolution, None) == Success(true)
    ensures Eq(FixedPoint(1005, 3), Value(FixedPoint(100, 2)), DefaultResolution, None) == Success(false)
  {
    FixedMath.ToPrecisionNarrow(1005, 2, 1);
    assert TruncDiv(1005, 10) == 100;
    FixedMath.ToPrecisionWiden(100, 2, 1);
  }
}
