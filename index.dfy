/** The second generation of the `FixedPoint` class, in src/index.ts.  It
    has the same operators as src/FixedPoint.ts but no precision selector:
    the result precision is the override when one is given and otherwise
    the larger of the two precisions.  Its `div` rewrites the quotient from
    precision pA + pB rather than pA. */
module FixedPointMax {
  import opened Results
  import opened JsBigInt
  import FixedMath
  import opened FixedPointValue
  import opened Parsers
  import FixedPointLeft

  /** `pickPrecision`: the override when one is given, otherwise the larger
      of the two precisions. */
  function PickPrecision(pA: int, pB: int, resultPrecision: Option<int>): (n: int)
    ensures resultPrecision.Some? ==> n == resultPrecision.value
    ensures resultPrecision.None? ==> n >= pA && n >= pB && (n == pA || n == pB)
  {
    if resultPrecision.Some? then ParsePrecision(resultPrecision.value) else FixedMath.Max([pA, pB]).value
  }

  /** The picked precision n and both bases rewritten at n. */
  function Aligned(a: FixedPoint, b: FixedPoint, resultPrecision: Option<int>): (r: Result<(int, int, int)>)
    ensures r.Success? ==> r.value.2 == PickPrecision(a.precision, b.precision, resultPrecision)
    ensures r.Failure? ==> r.error == NegativeExponent
  {
    var n := PickPrecision(a.precision, b.precision, resultPrecision);
    var aBase :- Rescaled(a, n);
    var bBase :- Rescaled(b, n);
    Success((aBase, bBase, n))
  }

  /** `add` (its `console.log` of the two aligned bases aside). */
  function Add(a: FixedPoint, arg: Operand, resultPrecision: Option<int>): (r: Result<FixedPoint>)
    ensures resultPrecision.Some? && r.Success? ==> r.value.precision == resultPrecision.value
  {
    var b :- FP(arg, None);
    var t :- Aligned(a, b, resultPrecision);
    Success(FixedPoint(t.0 + t.1, t.2))
  }

  /** `sub`. */
  function Sub(a: FixedPoint, arg: Operand, resultPrecision: Option<int>): (r: Result<FixedPoint>)
    ensures resultPrecision.Some? && r.Success? ==> r.value.precision == resultPrecision.value
  {
    var b :- FP(arg, None);
    var t :- Aligned(a, b, resultPrecision);
    Success(FixedPoint(t.0 - t.1, t.2))
  }

  /** `mul`: the raw product, at precision pA + pB, rewritten at the picked
      precision. */
  function Mul(a: FixedPoint, arg: Operand, resultPrecision: Option<int>): (r: Result<FixedPoint>)
    ensures resultPrecision.Some? && r.Success? ==> r.value.precision == resultPrecision.value
  {
    var b :- FP(arg, None);
    var n := PickPrecision(a.precision, b.precision, resultPrecision);
    var base :- FixedMath.ToPrecision(a.base * b.base, n, a.precision + b.precision);
    Success(FixedPoint(base, n))
  }

  /** `div`: the receiver's base widened by pB digits and divided
      (truncating) by the argument's base, a quotient at precision pA, which
      is then rewritten at the picked precision as though it were at
      precision pA + pB. */
  function Div(a: FixedPoint, arg: Operand, resultPrecision: Option<int>): (r: Result<FixedPoint>)
    ensures resultPrecision.Some? && r.Success? ==> r.value.precision == resultPrecision.value
  {
    var b :- FP(arg, None);
    var n := PickPrecision(a.precision, b.precision, resultPrecision);
    var widened :- FixedMath.ToPrecision(a.base, a.precision + b.precision, a.precision);
    var quotient :- Quot(widened, b.base);
    var base :- FixedMath.ToPrecision(quotient, n, a.precision + b.precision);
    Success(FixedPoint(base, n))
  }

  /** `eq`. */
  function Eq(a: FixedPoint, arg: Operand, resultPrecision: Option<int>): (r: Result<bool>)
    ensures arg.Value? ==> (r.Success? <==> Aligned(a, arg.fp, resultPrecision).Success?)
  {
    var b :- FP(arg, None);
    var t :- Aligned(a, b, resultPrecision);
    Success(t.0 == t.1)
  }

  /** `gt`. */
  function Gt(a: FixedPoint, arg: Operand, resultPrecision: Option<int>): (r: Result<bool>)
    ensures arg.Value? ==> (r.Success? <==> Aligned(a, arg.fp, resultPrecision).Success?)
  {
    var b :- FP(arg, None);
    var t :- Aligned(a, b, resultPrecision);
    Success(t.0 > t.1)
  }

  /** `lt`. */
  function Lt(a: FixedPoint, arg: Operand, resultPrecision: Option<int>): (r: Result<bool>)
    ensures arg.Value? ==> (r.Success? <==> Aligned(a, arg.fp, resultPrecision).Success?)
  {
    var b :- FP(arg, None);
    var t :- Aligned(a, b, resultPrecision);
    Success(t.0 < t.1)
  }

  /** `gte`. */
  function Gte(a: FixedPoint, arg: Operand, resultPrecision: Option<int>): (r: Result<bool>)
    ensures arg.Value? ==> (r.Success? <==> Aligned(a, arg.fp, resultPrecision).Success?)
  {
    var b :- FP(arg, None);
    var t :- Aligned(a, b, resultPrecision);
    Success(t.0 >= t.1)
  }

  /** `lte`. */
  function Lte(a: FixedPoint, arg: Operand, resultPrecision: Option<int>): (r: Result<bool>)
    ensures arg.Value? ==> (r.Success? <==> Aligned(a, arg.fp, resultPrecision).Success?)
  {
    var b :- FP(arg, None);
    var t :- Aligned(a, b, resultPrecision);
    Success(t.0 <= t.1)
  }

  // ---------------------------------------------------------------------
  // Relation to the first generation

  /** `add` is the first generation's with the 'max' resolution. */
  lemma AddAsMaxResolution(a: FixedPoint, arg: Operand, resultPrecision: Option<int>)
    ensures Add(a, arg, resultPrecision) == FixedPointLeft.Add(a, arg, FixedPointLeft.MaxPrecision, resultPrecision)
  {
    if FP(arg, None).Success? {
      AlignedIsMaxResolution(a, FP(arg, None).value, resultPrecision);
    }
  }

  /** So is `sub`. */
  lemma SubAsMaxResolution(a: FixedPoint, arg: Operand, resultPrecision: Option<int>)
    ensures Sub(a, arg, resultPrecision) == FixedPointLeft.Sub(a, arg, FixedPointLeft.MaxPrecision, resultPrecision)
  {
    if FP(arg, None).Success? {
      AlignedIsMaxResolution(a, FP(arg, None).value, resultPrecision);
    }
  }

  /** And so is `mul`; only `div` differs. */
  lemma MulAsMaxResolution(a: FixedPoint, arg: Operand, resultPrecision: Option<int>)
    ensures Mul(a, arg, resultPrecision) == FixedPointLeft.Mul(a, arg, FixedPointLeft.MaxPrecision, resultPrecision)
  {
    if FP(arg, None).Success? {
      var b := FP(arg, None).value;
      PickPrecisionIsMaxResolution(a.precision, b.precision, resultPrecision);
    }
  }

  /** Every comparison is the first generation's with the 'max'
      resolution. */
  lemma ComparisonsAsMaxResolution(a: FixedPoint, arg: Operand, resultPrecision: Option<int>)
    ensures Eq(a, arg, resultPrecision) == FixedPointLeft.Eq(a, arg, FixedPointLeft.MaxPrecision, resultPrecision)
    ensures Gt(a, arg, resultPrecision) == FixedPointLeft.Gt(a, arg, FixedPointLeft.MaxPrecision, resultPrecision)
    ensures Lt(a, arg, resultPrecision) == FixedPointLeft.Lt(a, arg, FixedPointLeft.MaxPrecision, resultPrecision)
    ensures Gte(a, arg, resultPrecision) == FixedPointLeft.Gte(a, arg, FixedPointLeft.MaxPrecision, resultPrecision)
    ensures Lte(a, arg, resultPrecision) == FixedPointLeft.Lte(a, arg, FixedPointLeft.MaxPrecision, resultPrecision)
  {
    if FP(arg, None).Success? {
      AlignedIsMaxResolution(a, FP(arg, None).value, resultPrecision);
    }
  }

  /** This generation's precision policy is the first's 'max' resolution. */
  lemma PickPrecisionIsMaxResolution(pA: int, pB: int, resultPrecision: Option<int>)
    ensures PickPrecision(pA, pB, resultPrecision) == FixedPointLeft.PickPrecision(pA, pB, FixedPointLeft.MaxPrecision, resultPrecision)
  {
  }

  lemma AlignedIsMaxResolution(a: FixedPoint, b: FixedPoint, resultPrecision: Option<int>)
    ensures Aligned(a, b, resultPrecision) == FixedPointLeft.Aligned(a, b, FixedPointLeft.MaxPrecision, resultPrecision)
  {
    PickPrecisionIsMaxResolution(a.precision, b.precision, resultPrecision);
  }

  // ---------------------------------------------------------------------
  // add and sub

  /** With no override both operands are widened to the larger precision,
      so add is exact: no digit of either operand is lost. */
  lemma AddExact(a: FixedPoint, b: FixedPoint)
    requires a.precision >= 0 && b.precision >= 0
    ensures var r := Add(a, Value(b), None);
      r.Success? && r.value.precision == FixedMath.Max([a.precision, b.precision]).value &&
      RealValue(r.value) == RealValue(a) + RealValue(b)
  {
    AddAsMaxResolution(a, Value(b), None);
    FixedPointLeft.AddExact(a, b, FixedPointLeft.MaxPrecision, None);
  }

  /** Likewise sub is exact. */
  lemma SubExact(a: FixedPoint, b: FixedPoint)
    requires a.precision >= 0 && b.precision >= 0
    ensures var r := Sub(a, Value(b), None);
      r.Success? && r.value.precision == FixedMath.Max([a.precision, b.precision]).value &&
      RealValue(r.value) == RealValue(a) - RealValue(b)
  {
    SubAsMaxResolution(a, Value(b), None);
    FixedPointLeft.SubExact(a, b, FixedPointLeft.MaxPrecision, None);
  }

  /** `a.add(b)` and `b.add(a)` are the same value, or fail the same way,
      whatever the result precision. */
  lemma AddCommutes(a: FixedPoint, b: FixedPoint, resultPrecision: Option<int>)
    ensures Add(a, Value(b), resultPrecision) == Add(b, Value(a), resultPrecision)
  {
    AddAsMaxResolution(a, Value(b), resultPrecision);
    AddAsMaxResolution(b, Value(a), resultPrecision);
    FixedPointLeft.AddCommutes(a, b, FixedPointLeft.MaxPrecision, resultPrecision);
  }

  /** At any non-negative picked precision n (a narrowing override such
      as `a.add(b, 0)` included), add is the sum of the two bases as
      rewritten at n, each truncated where it has more digits. */
  lemma AddAt(a: FixedPoint, b: FixedPoint, resultPrecision: Option<int>)
    requires a.precision >= 0 && b.precision >= 0
    requires PickPrecision(a.precision, b.precision, resultPrecision) >= 0
    ensures var n := PickPrecision(a.precision, b.precision, resultPrecision);
      Add(a, Value(b), resultPrecision) == Success(FixedPoint(RescaledBase(a, n) + RescaledBase(b, n), n))
  {
    AddAsMaxResolution(a, Value(b), resultPrecision);
    PickPrecisionIsMaxResolution(a.precision, b.precision, resultPrecision);
    FixedPointLeft.AddAt(a, b, FixedPointLeft.MaxPrecision, resultPrecision);
  }

  /** Likewise sub is the difference of the two rewritten bases. */
  lemma SubAt(a: FixedPoint, b: FixedPoint, resultPrecision: Option<int>)
    requires a.precision >= 0 && b.precision >= 0
    requires PickPrecision(a.precision, b.precision, resultPrecision) >= 0
    ensures var n := PickPrecision(a.precision, b.precision, resultPrecision);
      Sub(a, Value(b), resultPrecision) == Success(FixedPoint(RescaledBase(a, n) - RescaledBase(b, n), n))
  {
    SubAsMaxResolution(a, Value(b), resultPrecision);
    PickPrecisionIsMaxResolution(a.precision, b.precision, resultPrecision);
    FixedPointLeft.SubAt(a, b, FixedPointLeft.MaxPrecision, resultPrecision);
  }

  // ---------------------------------------------------------------------
  // Comparisons

  /** With no override the comparisons are comparisons of value: both bases
      are widened to m, the larger precision, and compared there. */
  lemma CompareValues(a: FixedPoint, b: FixedPoint)
    requires a.precision >= 0 && b.precision >= 0
    ensures var m := FixedMath.Max([a.precision, b.precision]).value;
      Eq(a, Value(b), None) == Success(a.base * Pow10(m - a.precision) == b.base * Pow10(m - b.precision))
    ensures Eq(a, Value(b), None) == Success(RealValue(a) == RealValue(b))
    ensures Lt(a, Value(b), None) == Success(RealValue(a) < RealValue(b))
    ensures Gt(a, Value(b), None) == Success(RealValue(a) > RealValue(b))
    ensures Gte(a, Value(b), None) == Success(RealValue(a) >= RealValue(b))
    ensures Lte(a, Value(b), None) == Success(RealValue(a) <= RealValue(b))
  {
    ComparisonsAsMaxResolution(a, Value(b), None);
    FixedPointLeft.AlignedExact(a, b, FixedPointLeft.MaxPrecision, None);
    FixedPointLeft.CompareValues(a, b, FixedPointLeft.MaxPrecision, None);
  }

  /** At any non-negative picked precision n, every comparison compares
      the two bases as rewritten at n. */
  lemma CompareAt(a: FixedPoint, b: FixedPoint, resultPrecision: Option<int>)
    requires a.precision >= 0 && b.precision >= 0
    requires PickPrecision(a.precision, b.precision, resultPrecision) >= 0
    ensures var n := PickPrecision(a.precision, b.precision, resultPrecision);
      var A, B := RescaledBase(a, n), RescaledBase(b, n);
      Eq(a, Value(b), resultPrecision) == Success(A == B) &&
      Gt(a, Value(b), resultPrecision) == Success(A > B) &&
      Lt(a, Value(b), resultPrecision) == Success(A < B) &&
      Gte(a, Value(b), resultPrecision) == Success(A >= B) &&
      Lte(a, Value(b), resultPrecision) == Success(A <= B)
  {
    ComparisonsAsMaxResolution(a, Value(b), resultPrecision);
    PickPrecisionIsMaxResolution(a.precision, b.precision, resultPrecision);
    FixedPointLeft.CompareAt(a, b, FixedPointLeft.MaxPrecision, resultPrecision);
  }

  /** The five comparisons succeed or fail together; on success exactly
      one of lt, eq and gt holds, gte is not-lt and lte is not-gt. */
  lemma Trichotomy(a: FixedPoint, arg: Operand, resultPrecision: Option<int>)
    ensures var e := Eq(a, arg, resultPrecision);
      Lt(a, arg, resultPrecision).Success? == e.Success? &&
      Gt(a, arg, resultPrecision).Success? == e.Success? &&
      Gte(a, arg, resultPrecision).Success? == e.Success? &&
      Lte(a, arg, resultPrecision).Success? == e.Success?
    ensures Eq(a, arg, resultPrecision).Success? ==>
      var lt, eq, gt := Lt(a, arg, resultPrecision).value, Eq(a, arg, resultPrecision).value, Gt(a, arg, resultPrecision).value;
      (lt || eq || gt) && !(lt && eq) && !(lt && gt) && !(eq && gt) &&
      Gte(a, arg, resultPrecision).value == !lt && Lte(a, arg, resultPrecision).value == !gt
  {
    ComparisonsAsMaxResolution(a, arg, resultPrecision);
    FixedPointLeft.Trichotomy(a, arg, FixedPointLeft.MaxPrecision, resultPrecision);
  }

  // ---------------------------------------------------------------------
  // mul and div

  /** With no override the product is at the larger precision: the raw
      product, at pA + pB, divided by 10^min(pA, pB) and truncated. */
  lemma MulDefault(a: FixedPoint, b: FixedPoint)
    requires a.precision >= 0 && b.precision >= 0
    ensures var m, k := FixedMath.Max([a.precision, b.precision]).value, FixedMath.Min([a.precision, b.precision]).value;
      k >= 0 && Mul(a, Value(b), None) == Success(FixedPoint(TruncDiv(a.base * b.base, Pow10(k)), m))
  {
    var m, k := FixedMath.Max([a.precision, b.precision]).value, FixedMath.Min([a.precision, b.precision]).value;
    assert m + k == a.precision + b.precision;
    FixedMath.ToPrecisionNarrow(a.base * b.base, m, k);
  }

  /** The quotient before its final rescaling: the receiver's base times
      10^pB, divided by the argument's base and truncated, which is then
      rewritten at the picked precision n as though it were at precision
      pA + pB; a negative n throws. */
  lemma DivQuotient(a: FixedPoint, b: FixedPoint, resultPrecision: Option<int>)
    requires a.precision >= 0 && b.precision >= 0 && b.base != 0
    ensures var n := PickPrecision(a.precision, b.precision, resultPrecision);
      var q := TruncDiv(a.base * Pow10(b.precision), b.base);
      Div(a, Value(b), resultPrecision) ==
        if n < 0 then Failure(NegativeExponent)
        else Success(FixedPoint(FixedMath.ToPrecision(q, n, a.precision + b.precision).value, n))
    ensures var n := PickPrecision(a.precision, b.precision, resultPrecision);
      var q := TruncDiv(a.base * Pow10(b.precision), b.base);
      n >= 0 ==> Div(a, Value(b), resultPrecision) == Success(FixedPoint(RescaledBase(FixedPoint(q, a.precision + b.precision), n), n))
  {
    var n := PickPrecision(a.precision, b.precision, resultPrecision);
    var q := TruncDiv(a.base * Pow10(b.precision), b.base);
    FixedMath.ToPrecisionWiden(a.base, a.precision, b.precision);
    if n >= 0 {
      RescaledIsRescaledBase(FixedPoint(q, a.precision + b.precision), n);
    }
  }

  /** With no override the truncated quotient q of a.base * 10^pB by b.base
      (a value at precision pA) is rewritten from precision pA + pB to the
      larger precision m, so it loses min(pA, pB) more digits. */
  lemma DivDefault(a: FixedPoint, b: FixedPoint)
    requires a.precision >= 0 && b.precision >= 0 && b.base != 0
    ensures var m, k := FixedMath.Max([a.precision, b.precision]).value, FixedMath.Min([a.precision, b.precision]).value;
      var q := TruncDiv(a.base * Pow10(b.precision), b.base);
      k >= 0 && Div(a, Value(b), None) == Success(FixedPoint(TruncDiv(q, Pow10(k)), m))
  {
    var m, k := FixedMath.Max([a.precision, b.precision]).value, FixedMath.Min([a.precision, b.precision]).value;
    var q := TruncDiv(a.base * Pow10(b.precision), b.base);
    FixedMath.ToPrecisionWiden(a.base, a.precision, b.precision);
    assert m + k == a.precision + b.precision;
    FixedMath.ToPrecisionNarrow(q, m, k);
  }

  /** Dividing by a zero base throws. */
  lemma DivByZero(a: FixedPoint, b: FixedPoint, resultPrecision: Option<int>)
    requires a.precision >= 0 && b.precision >= 0 && b.base == 0
    ensures Div(a, Value(b), resultPrecision) == Failure(DivisionByZero)
  {
    FixedMath.ToPrecisionWiden(a.base, a.precision, b.precision);
  }

  /** The two generations disagree on 1 / 3 at precision 9: the first gives
      0.333333333, this one 0. */
  lemma DivDiffersFromLeft()
    ensures FixedPointLeft.Div(FixedPoint(1000000000, 9), Value(FixedPoint(3000000000, 9)), FixedPointLeft.DefaultResolution, None)
      == Success(FixedPoint(333333333, 9))
    ensures Div(FixedPoint(1000000000, 9), Value(FixedPoint(3000000000, 9)), None) == Success(FixedPoint(0, 9))
  {
    FixedPointLeft.DivExample();
    var a, b := FixedPoint(1000000000, 9), FixedPoint(3000000000, 9);
    DivDefault(a, b);
    FixedPointLeft.OneThirdQuotient();
    assert FixedMath.Max([9, 9]).value == 9 && FixedMath.Min([9, 9]).value == 9;
    var d := Pow10(9);
    assert d == 1000000000;
    TruncDivNonNegative(333333333, d);
    assert 333333333 / d == 0;
  }

  // ---------------------------------------------------------------------
  // The operand as src/index.ts actually hands it to FP

  /** What `FP` is given for an operand of this class.  `FP` recognises only
      instances of the class in src/FixedPoint.ts, so an instance of this
      class is treated as a bare base, which `parseBase` reads through its
      `toString()`: it comes back as its raw base at precision 0, and its
      own precision is lost. */
  function SourceOperand(b: FixedPoint): (r: Operand)
    ensures FP(r, None) == Success(FixedPoint(b.base, 0))
  {
    var s := IntToString(b.base);
    assert 'e' !in s && '.' !in s by {
      assert forall i :: 0 <= i < |s| ==> s[i] == '-' || IsDigit(s[i]);
    }
    ParseBaseInteger(s);
    ParseIntToString(b.base);
    Num(Plain(Text(ToString(b))))
  }

  /** Any operand that `FP` parses to c behaves as the value c itself under
      add, ... */
  lemma AddThroughParsed(a: FixedPoint, arg: Operand, c: FixedPoint, resultPrecision: Option<int>)
    requires FP(arg, None) == Success(c)
    ensures Add(a, arg, resultPrecision) == Add(a, Value(c), resultPrecision)
  {
    assert FP(Value(c), None) == Success(c);
  }

  /** ... under sub, ... */
  lemma SubThroughParsed(a: FixedPoint, arg: Operand, c: FixedPoint, resultPrecision: Option<int>)
    requires FP(arg, None) == Success(c)
    ensures Sub(a, arg, resultPrecision) == Sub(a, Value(c), resultPrecision)
  {
    assert FP(Value(c), None) == Success(c);
  }

  /** ... under mul, ... */
  lemma MulThroughParsed(a: FixedPoint, arg: Operand, c: FixedPoint, resultPrecision: Option<int>)
    requires FP(arg, None) == Success(c)
    ensures Mul(a, arg, resultPrecision) == Mul(a, Value(c), resultPrecision)
  {
    assert FP(Value(c), None) == Success(c);
  }

  /** ... under div, ... */
  lemma DivThroughParsed(a: FixedPoint, arg: Operand, c: FixedPoint, resultPrecision: Option<int>)
    requires FP(arg, None) == Success(c)
    ensures Div(a, arg, resultPrecision) == Div(a, Value(c), resultPrecision)
  {
    assert FP(Value(c), None) == Success(c);
  }

  /** ... and under every comparison. */
  lemma ComparedThroughParsed(a: FixedPoint, arg: Operand, c: FixedPoint, resultPrecision: Option<int>)
    requires FP(arg, None) == Success(c)
    ensures Eq(a, arg, resultPrecision) == Eq(a, Value(c), resultPrecision)
    ensures Gt(a, arg, resultPrecision) == Gt(a, Value(c), resultPrecision)
    ensures Lt(a, arg, resultPrecision) == Lt(a, Value(c), resultPrecision)
    ensures Gte(a, arg, resultPrecision) == Gte(a, Value(c), resultPrecision)
    ensures Lte(a, arg, resultPrecision) == Lte(a, Value(c), resultPrecision)
  {
    assert FP(Value(c), None) == Success(c);
  }

  /** As written, every operator given an instance b of this class computes
      with the value (b.base, 0). */
  lemma SourceOperandAsValue(a: FixedPoint, b: FixedPoint, resultPrecision: Option<int>)
    ensures var arg, v := SourceOperand(b), Value(FixedPoint(b.base, 0));
      Add(a, arg, resultPrecision) == Add(a, v, resultPrecision) &&
      Sub(a, arg, resultPrecision) == Sub(a, v, resultPrecision) &&
      Mul(a, arg, resultPrecision) == Mul(a, v, resultPrecision) &&
      Div(a, arg, resultPrecision) == Div(a, v, resultPrecision) &&
      Eq(a, arg, resultPrecision) == Eq(a, v, resultPrecision) &&
      Gt(a, arg, resultPrecision) == Gt(a, v, resultPrecision) &&
      Lt(a, arg, resultPrecision) == Lt(a, v, resultPrecision) &&
      Gte(a, arg, resultPrecision) == Gte(a, v, resultPrecision) &&
      Lte(a, arg, resultPrecision) == Lte(a, v, resultPrecision)
  {
    AddThroughParsed(a, SourceOperand(b), FixedPoint(b.base, 0), resultPrecision);
    SubThroughParsed(a, SourceOperand(b), FixedPoint(b.base, 0), resultPrecision);
    MulThroughParsed(a, SourceOperand(b), FixedPoint(b.base, 0), resultPrecision);
    DivThroughParsed(a, SourceOperand(b), FixedPoint(b.base, 0), resultPrecision);
    ComparedThroughParsed(a, SourceOperand(b), FixedPoint(b.base, 0), resultPrecision);
  }

  /** `a.add(b)` for two instances of this class, as written: with no
      override, b's raw base is added as an integer at a's precision. */
  function AddAsWritten(a: FixedPoint, b: FixedPoint, resultPrecision: Option<int>): (r: Result<FixedPoint>)
    ensures r == Add(a, Value(FixedPoint(b.base, 0)), resultPrecision)
    ensures resultPrecision.None? && a.precision >= 0 ==>
      r == Success(FixedPoint(a.base + b.base * Pow10(a.precision), a.precision))
  {
    SourceOperandAsValue(a, b, resultPrecision);
    if a.precision >= 0 then
      RescaledWiden(FixedPoint(b.base, 0), a.precision);
      Add(a, SourceOperand(b), resultPrecision)
    else
      Add(a, SourceOperand(b), resultPrecision)
  }

  /** As written, comparing with an instance of this class compares with
      its raw base read as an integer. */
  lemma CompareAsWritten(a: FixedPoint, b: FixedPoint)
    requires a.precision >= 0
    ensures var B := b.base * Pow10(a.precision);
      Eq(a, SourceOperand(b), None) == Success(a.base == B) &&
      Gt(a, SourceOperand(b), None) == Success(a.base > B) &&
      Lt(a, SourceOperand(b), None) == Success(a.base < B) &&
      Gte(a, SourceOperand(b), None) == Success(a.base >= B) &&
      Lte(a, SourceOperand(b), None) == Success(a.base <= B)
  {
    SourceOperandAsValue(a, b, None);
    RescaledWiden(FixedPoint(b.base, 0), a.precision);
  }

  /** As written, adding a value of this class adds its raw base as an
      integer: 1.5 + 1.0 gives 11.5 instead of 2.5, and 1.0 + 1.5 gives
      16.0, so add does not even commute. */
  lemma AddAsWrittenDiffers()
    ensures AddAsWritten(FixedPoint(15, 1), FixedPoint(10, 1), None) == Success(FixedPoint(115, 1))
    ensures AddAsWritten(FixedPoint(10, 1), FixedPoint(15, 1), None) == Success(FixedPoint(160, 1))
    ensures Add(FixedPoint(15, 1), Value(FixedPoint(10, 1)), None) == Success(FixedPoint(25, 1))
  {
    FixedMath.ToPrecisionWiden(10, 0, 1);
  }

  /** As written, a value of this class is not equal to itself: 1.5 is
      compared with 15. */
  lemma EqAsWrittenNotReflexive()
    ensures Eq(FixedPoint(15, 1), SourceOperand(FixedPoint(15, 1)), None) == Success(false)
    ensures Eq(FixedPoint(15, 1), Value(FixedPoint(15, 1)), None) == Success(true)
  {
    CompareAsWritten(FixedPoint(15, 1), FixedPoint(15, 1));
  }
}
