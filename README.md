# fixed-point: a verified model

A model, in Dafny, of the core of the `fixed-point` TypeScript library. A
value is an immutable pair `(base, precision)` of bigints. It stands for
`base / 10^precision`. The model covers:

- the rescaling primitive `toPrecision` and `min`, `max`, `abs` (src/math.ts);
- the parsers that turn decimal text, exponent notation, bigints and
  `[base, precision]` tuples into pairs, and `FP` (src/parsers.ts);
- the operators of the `FixedPoint` class in src/FixedPoint.ts, with its
  `pickPrecision` policy (`left`, `right`, `min`, `max`; the class uses `left`);
- the second generation of the class in src/index.ts. Its policy is
  "override or max", and its `div` rewrites the quotient from precision
  `pA + pB`.

Every source file is pure, so each becomes a module of datatypes, functions
and lemmas:

| file | module | source |
|---|---|---|
| results.dfy | `Results` | exceptions as `Result` values |
| js_bigint.dfy | `JsBigInt` | bigint `**`, the truncating `/`, `toString`, `BigInt(text)` |
| js_string.dfy | `JsString` | `split`, `padStart`, `slice` |
| math.dfy | `FixedMath` | src/math.ts |
| value.dfy | `FixedPointValue` | the value pair and the unary members both classes share |
| parsers.dfy | `Parsers` | src/parsers.ts |
| fixed_point.dfy | `FixedPointLeft` | src/FixedPoint.ts |
| index.dfy | `FixedPointMax` | src/index.ts |

Modelling choices:

- A JavaScript exception becomes a `Failure`, and `:-` passes it on in the
  order the source evaluates its operands. There are five kinds:
  - `NegativeExponent`: `10n ** e` with `e < 0`;
  - `DivisionByZero`: `/ 0n`;
  - `BigIntSyntax`: `BigInt` rejects the text;
  - `NotAnInteger`: `BigInt(Number(text))` of a non-integer;
  - `EmptyReduce`: `reduce` over no arguments.
- Bigint `/` truncates toward zero. `TruncDiv` models it, and
  `IsTruncQuotient` characterises it.
- `RealValue` (ghost) is the rational number a pair denotes. The
  exactness lemmas are stated with it.
- The class's `precisionResolution` field is a parameter of each
  first-generation operator. `DefaultResolution` is the class's own `left`.
- The model keeps the source's quirks, each shown by a lemma:
  - a negative decimal text adds its fraction, so `"-1.5"` is -0.5
    and `"-0.5"` is +0.5 (`Parsers.ParseDecimalNegativeParts`);
  - a `defaultPrecision` of 0 is ignored (`Parsers.ParseNumericDefault`);
  - `(-1, 5)` renders as `"0.000-1"` (`FixedPointValue.DecimalStringSmallNegative`);
  - segments after a second '.' are dropped (`Parsers.ParseDecimalExtraPoints`);
  - the two classes' `div` disagree (`FixedPointMax.DivDiffersFromLeft`).
- The repository's own tests and its code disagree in places. The model
  follows the code:
  - the test at src/FixedPoint.spec.ts:753-759 expects 1/3 divided at
    precision 9 to be base 333333333 ("0.333333333"). The src/FixedPoint.ts
    `div` gives that (`FixedPointLeft.DivExample`); the src/index.ts `div`
    gives 0 (`FixedPointMax.DivDiffersFromLeft`);
  - the tests at src/FixedPoint.spec.ts:364-372 call `isZero`, which
    neither class defines.
- An operand `Value(x)` is an instance of the src/FixedPoint.ts class: the
  only class `FP` recognises, because src/parsers.ts:4 imports it for its
  `instanceof` test. An instance x of the src/index.ts class reaches `FP` as
  `FixedPointMax.SourceOperand(x)`, a bare base, and every operator then
  computes with `(x.base, 0)` (`FixedPointMax.SourceOperandAsValue`). The
  `FixedPointMax` lemmas stated on `Value(b)` are about src/FixedPoint.ts
  operands; the `…AsWritten` members are about src/index.ts operands.

## Model

| member | source | states |
|---|---|---|
| JsBigInt.Exp10 | src/math.ts:5 | `10n ** e` throws exactly when e is negative; otherwise it is at least 1 |
| JsBigInt.TruncDiv | src/math.ts:5 | bigint `/` rounds toward zero: the remainder is smaller than the divisor's magnitude and has the dividend's sign |
| JsBigInt.TruncQuotientUnique | src/math.ts:5 | only one quotient meets that description |
| JsBigInt.TruncDivCancel | src/math.ts:5 | a common positive factor of dividend and divisor does not change the quotient |
| JsBigInt.TruncDivNeg | src/math.ts:5 | negating the dividend negates the quotient |
| JsBigInt.Quot | src/math.ts:5 | division by 0n throws; otherwise it gives the truncated quotient |
| JsBigInt.NatToString | src/FixedPoint.ts:153 | a non-negative bigint's text is non-empty decimal digits denoting it, with no leading zero: it starts with '0' exactly when it is "0" |
| JsBigInt.IntToString | src/FixedPoint.ts:153 | a bigint's text starts with '-' exactly when it is negative; the rest are digits denoting its magnitude, with no leading zero |
| JsBigInt.ParseBigInt | src/parsers.ts:13 | `BigInt(text)` succeeds exactly on a (possibly empty) run of decimal digits or a '-' followed by a non-empty run; digits give their value, '-'digits its negation, and every other text fails with a syntax error |
| JsBigInt.ParseIntToString | src/FixedPoint.ts:152-154 | `BigInt(n.toString()) == n` for every bigint |
| JsBigInt.NumberToBigInt | src/parsers.ts:22-24 | `BigInt(Number(pow))`, as read by the model, succeeds exactly on digits, or '-' or '+' followed by digits, and gives that integer; the model treats every other text as not an integer (see Left out for the integer forms of `Number` it rejects) |
| JsString.Split | src/parsers.ts:11 | `split` gives one or more segments, one exactly when the separator is absent, and then that segment is the whole text |
| JsString.SplitSegments | src/parsers.ts:11 | the segments of `split` hold no separator and join back to the text |
| JsString.SplitJoin | src/parsers.ts:11 | splitting a join of separator-free segments returns the segments |
| JsString.SplitAfterSegment | src/parsers.ts:19 | text that begins with a separator-free segment and the separator splits into that segment followed by the split of the rest |
| JsString.PadStart | src/FixedPoint.ts:161 | `padStart` reaches the requested length, ends with the original text and fills the front with the pad character |
| JsString.SliceIndex | src/FixedPoint.ts:165 | a negative `slice` index counts from the end; an index past the end reads as the length, and one before the start as 0 |
| JsString.Slice | src/FixedPoint.ts:165 | `s.slice(start, end)`: the text between the two clamped indices, empty when they cross (its value for the calls made is given by `SliceFromEnd`) |
| JsString.SliceFromEnd | src/FixedPoint.ts:165 | for 0 < k <= len, `s.slice(0, -k)` is all but the last k characters and `s.slice(-k)` is the last k |
| JsString.SliceFrom | src/FixedPoint.ts:165 | `s.slice(i)` is the suffix from the clamped index |
| FixedMath.ToPrecision | src/math.ts:1-6 | equal precisions return the base untouched; otherwise it succeeds exactly when both precisions are non-negative, and it fails only with the exponent error |
| FixedMath.ToPrecisionWiden | src/math.ts:5 | widening by k digits multiplies the base by 10^k exactly |
| FixedMath.ToPrecisionNarrow | src/math.ts:5 | narrowing by k digits is the base divided by 10^k, truncated toward zero |
| FixedMath.ToPrecisionWidenNarrow | src/math.ts:5 | widening and then narrowing back is the identity |
| FixedMath.MinFrom | src/math.ts:7 | the `reduce` fold keeps an element no larger than the accumulator or any remaining element |
| FixedMath.MaxFrom | src/math.ts:8 | the `reduce` fold keeps an element no smaller than the accumulator or any remaining element |
| FixedMath.Min | src/math.ts:7 | `min` returns an argument no larger than every argument; it throws exactly on an empty list |
| FixedMath.Max | src/math.ts:8 | `max` returns an argument no smaller than every argument; it throws exactly on an empty list |
| FixedMath.Abs | src/math.ts:9 | `abs(x)` is non-negative and is x or -x |
| FixedPointValue.RealValueScale | src/math.ts:5 | writing a value with k more digits leaves the number it denotes unchanged |
| FixedPointValue.RealValueSum | src/FixedPoint.ts:59 | at a common precision, adding bases adds values |
| FixedPointValue.RealValueDifference | src/FixedPoint.ts:69 | at a common precision, subtracting bases subtracts values |
| FixedPointValue.RealValueProduct | src/FixedPoint.ts:79 | the product of two bases, at the sum of their precisions, is the product of the values |
| FixedPointValue.RealValueOrder | src/FixedPoint.ts:101-141 | at a common precision, bases compare as the values do |
| FixedPointValue.Rescaled | src/FixedPoint.ts:57-58 | rescaling leaves the base untouched at its own precision; otherwise it succeeds exactly when both precisions are non-negative, and fails only with the exponent error |
| FixedPointValue.RescaledIsRescaledBase | src/math.ts:1-6 | between non-negative precisions, rescaling gives the reference value `RescaledBase`: the base times 10^(n-p) when widening, divided by 10^(p-n) and truncated toward zero when narrowing |
| FixedPointValue.RescaledWiden | src/FixedPoint.ts:57-58 | rescaling a value to a precision at least its own multiplies its base by the power of ten between them |
| FixedPointValue.RescaledNeg | src/FixedPoint.ts:67-68 | rescaling a negated value gives the negated result, and it fails just when the original does |
| FixedPointValue.Neg | src/FixedPoint.ts:144-146 | `neg` keeps the precision and negates the base, for every precision, and so the value |
| FixedPointValue.NegInvolutive | src/FixedPoint.ts:144-146 | `neg(neg(x)) == x` |
| FixedPointValue.Abs | src/FixedPoint.ts:148-150 | `abs` keeps the precision and gives a non-negative base of the same magnitude |
| FixedPointValue.ToString | src/FixedPoint.ts:152-154 | `toString` is text that `BigInt` reads back as the base |
| FixedPointValue.ToJSON | src/FixedPoint.ts:156-158 | `toJSON` is the same readable text |
| FixedPointValue.ToDecimalString | src/FixedPoint.ts:160-166 | `toDecimalString()`: the padded text, with '.' inserted before its last `precision` characters when the precision is positive (its properties are stated by `DecimalStringParts` and `DecimalStringShape`) |
| FixedPointValue.Padded | src/FixedPoint.ts:161 | `base.toString().padStart(precision + 1, '0')` (`PaddedNoPoint` shows it holds no '.') |
| FixedPointValue.PaddedNoPoint | src/FixedPoint.ts:161 | the padded text holds no '.' |
| FixedPointValue.PointBefore | src/FixedPoint.ts:165 | `str.slice(0, -p) + '.' + str.slice(-p)` (its value is given by `PointBeforeParts`) |
| FixedPointValue.PointBeforeParts | src/FixedPoint.ts:165 | for 0 < p < len, the '.' goes before the last p characters |
| FixedPointValue.DecimalStringParts | src/FixedPoint.ts:160-166 | with a positive precision p, the rendering is the padded text with '.' before its last p characters |
| FixedPointValue.DecimalStringShape | src/FixedPoint.ts:160-166 | precision 0 renders the base's own text; otherwise there is a non-empty integer part, exactly one '.', and exactly `precision` characters after it |
| FixedPointValue.DecimalStringExample | src/FixedPoint.ts:160-166 | `(1000, 3)` renders as "1.000", which the constructor test at src/FixedPoint.spec.ts:9 expects |
| FixedPointValue.DecimalStringSmallBase | src/FixedPoint.ts:160-166 | `(1, 5)` renders as "0.00001": a short base is padded with zeros |
| FixedPointValue.DecimalStringNegative | src/FixedPoint.ts:160-166 | `(-112312, 5)` renders as "-1.12312" |
| FixedPointValue.DecimalStringNegativeFraction | src/FixedPoint.ts:160-166 | `(-15, 1)` renders as "-1.5" |
| FixedPointValue.DecimalStringSmallNegative | src/FixedPoint.ts:161 | `(-1, 5)` renders as "0.000-1": the zeros are padded in front of the sign |
| Parsers.ParsePrecision | src/parsers.ts:6-8 | `BigInt(precision)` of an integer precision is that integer |
| Parsers.ParseDecimalString | src/parsers.ts:10-14 | the precision is never negative, and the only failure is `BigInt`'s syntax error |
| Parsers.ParseDecimalFrom | src/parsers.ts:12-13 | integer part I and fraction D give `BigInt(I) * 10^|D| + BigInt(D)` at precision `|D|`; it fails exactly when I or D is not bigint text |
| Parsers.ParseDecimalParts | src/parsers.ts:11-13 | text `I.D` parses as integer part I and fraction D |
| Parsers.ParseDecimalExtraPoints | src/parsers.ts:11 | whatever follows a second '.' is ignored |
| Parsers.ParseDecimalNoPoint | src/parsers.ts:11-13 | text without '.' is `BigInt(text)` at precision 0 |
| Parsers.ParseDecimalNegativeParts | src/parsers.ts:11-13 | text `-K.D` of digits K (non-empty) and D parses as `-K * 10^len(D) + D` at precision `len(D)`: the fraction is added to a negative integer part |
| Parsers.ParseDecimalNegative | src/parsers.ts:13 | "-1.5" parses as (-5, 1) |
| Parsers.ParseDecimalNegativeZero | src/parsers.ts:13 | "-0.5" parses as (5, 1): the sign of a zero integer part is lost |
| Parsers.DecimalStringRoundTrip | src/parsers.ts:10-14 | parsing `toDecimalString` gives the pair back, for every precision-0 value and every non-negative base |
| Parsers.DecimalStringNegativeRoundTrip | src/parsers.ts:13 | the round trip breaks for a negative base with a fraction: the rendering of (-15, 1) parses as (-5, 1) |
| Parsers.ParseBase | src/parsers.ts:16-31 | `parseBase` never gives a negative precision |
| Parsers.BaseString | src/parsers.ts:17 | `base.toString()`: a text is itself, and a bigint's text is one that `BigInt` reads back as that bigint |
| Parsers.ParseExponent | src/parsers.ts:21-25 | the exponent branch never gives a negative precision |
| Parsers.ParseBaseInteger | src/parsers.ts:28-30 | text with neither 'e' nor '.' is `BigInt(text)` at precision 0 |
| Parsers.ParseBaseBigInt | src/parsers.ts:17-29 | a bigint base is taken as it is, at precision 0 |
| Parsers.ParseBaseExponent | src/parsers.ts:18-20 | text `m e pow` with one 'e' is the decimal parse of m followed by the exponent branch; a bad mantissa fails the same way |
| Parsers.ParseExponentNegative | src/parsers.ts:21-22 | a mantissa (b, p) with exponent -k gives (b, p + k) |
| Parsers.ParseExponentPositive | src/parsers.ts:23-24 | a mantissa (b, p) with exponent k gives `(b * 10^(k-p), 0)` when k >= p, and throws when k < p |
| Parsers.ParseNumeric | src/parsers.ts:33-43 | the precision is never negative, and a tuple `[b, t]` always yields precision t |
| Parsers.Rescale | src/parsers.ts:39 | the tuple branch, after the base is parsed, yields precision t |
| Parsers.RescaleWidens | src/parsers.ts:39 | a tuple whose target is at least the parsed precision widens the base exactly |
| Parsers.RescaleNarrows | src/parsers.ts:39 | a smaller non-negative target truncates the base without an error; a negative target throws |
| Parsers.ParseNumericScaled | src/parsers.ts:37-39 | a tuple is its parsed base rescaled to the target, whatever defaultPrecision is; a base that does not parse fails the same way |
| Parsers.ParseBaseDecimal | src/parsers.ts:26-27 | text `I.D` without an 'e' takes the decimal branch: the same pair as `I` and `D` give `ParseDecimalFrom` |
| Parsers.ParseBaseDecimalExample | src/parsers.ts:26-27 | "1.239" parses as (1239, 3) |
| Parsers.ParseNumericTruncates | src/parsers.ts:37-39 | `["1.239", 2]` gives (123, 2): surplus digits are cut, not rounded |
| Parsers.ParseNumericDefault | src/parsers.ts:34-36 | a bare base is wrapped with defaultPrecision only when that is truthy (`Truthy`: given and not 0, the test `defaultPrecision &&` of src/parsers.ts:34), so 0 is the same as no default |
| Parsers.FP | src/parsers.ts:45-52 | `FP` returns an existing value unchanged; anything else becomes the pair `parseNumeric` gives, and fails exactly when that does |
| FixedPointLeft.PickPrecision | src/FixedPoint.ts:8-27 | an override wins; otherwise `left` is pA, `right` is pB, and `min`/`max` is the smaller/larger of the two |
| FixedPointLeft.Aligned | src/FixedPoint.ts:56-58 | the aligned pair sits at the picked precision; alignment fails only with the exponent error |
| FixedPointLeft.Add | src/FixedPoint.ts:52-60 | `add` returns the override precision when one is given, and the receiver's under `left` |
| FixedPointLeft.Sub | src/FixedPoint.ts:62-70 | `sub`: the same precision rule |
| FixedPointLeft.Mul | src/FixedPoint.ts:72-81 | `mul`: the same precision rule |
| FixedPointLeft.Div | src/FixedPoint.ts:83-92 | `div`: the same precision rule |
| FixedPointLeft.Eq | src/FixedPoint.ts:94-102 | `eq` of an existing value succeeds exactly when the alignment does (the comparison itself is stated by `Trichotomy`, `CompareValues` and `CompareDefault`) |
| FixedPointLeft.Gt | src/FixedPoint.ts:104-112 | `gt`: the same |
| FixedPointLeft.Lt | src/FixedPoint.ts:114-122 | `lt`: the same |
| FixedPointLeft.Gte | src/FixedPoint.ts:124-132 | `gte`: the same |
| FixedPointLeft.Lte | src/FixedPoint.ts:134-142 | `lte`: the same |
| FixedPointLeft.AlignedExact | src/FixedPoint.ts:57-58 | when both precisions are at most the picked one, alignment succeeds and both aligned bases denote their operands' values |
| FixedPointLeft.AlignedFails | src/FixedPoint.ts:57-58 | alignment fails exactly when it must rescale to or from a negative precision |
| FixedPointLeft.AlignedDefault | src/FixedPoint.ts:35-58 | under the class's `left` default (`DefaultResolution`, the `precisionResolution = 'left'` of src/FixedPoint.ts:35), the receiver's base is kept and the argument's is rewritten at the receiver's precision: widened exactly, or truncated when it has more digits |
| FixedPointLeft.AlignedAt | src/FixedPoint.ts:35-58 | at any non-negative picked precision n, a narrowing override included, both bases are rewritten at n: widened exactly, or truncated toward zero when an operand has more digits |
| FixedPointLeft.AddExact | src/FixedPoint.ts:56-59 | when the picked precision is at least both operands' precisions, `add` succeeds and gives the exact sum |
| FixedPointLeft.SubExact | src/FixedPoint.ts:66-69 | under the same condition, `sub` gives the exact difference |
| FixedPointLeft.AddDefault | src/FixedPoint.ts:52-60 | with no override, `add` is the receiver's base plus the argument's rewritten at pA, at precision pA, for all non-negative precisions |
| FixedPointLeft.SubDefault | src/FixedPoint.ts:62-70 | with no override, `sub` is the receiver's base minus the argument's rewritten at pA, at precision pA |
| FixedPointLeft.AddAt | src/FixedPoint.ts:52-60 | at any non-negative picked precision n (e.g. `a.add(b, 0)`), `add` is the sum of both bases rewritten at n, at precision n |
| FixedPointLeft.SubAt | src/FixedPoint.ts:62-70 | at any non-negative picked precision n, `sub` is the difference of both bases rewritten at n, at precision n |
| FixedPointLeft.AddCommutes | src/FixedPoint.ts:56-59 | with an override or the `min`/`max` policy, `a.add(b)` equals `b.add(a)` |
| FixedPointLeft.SubSelf | src/FixedPoint.ts:66-69 | `a.sub(a)` is zero at the picked precision |
| FixedPointLeft.SubIsAddNeg | src/FixedPoint.ts:62-70 | `a.sub(b)` equals `a.add(b.neg())`, even when alignment truncates |
| FixedPointLeft.AddLeftAsymmetric | src/FixedPoint.ts:52-60 | under `left`, 1.00 + 0.005 is 1.00 but 0.005 + 1.00 is 1.005 |
| FixedPointLeft.MulExact | src/FixedPoint.ts:76-80 | at precision pA + pB the product is exact |
| FixedPointLeft.MulDefault | src/FixedPoint.ts:76-80 | with no override, the product is the raw product divided by 10^pB, truncated, at precision pA |
| FixedPointLeft.DivQuotient | src/FixedPoint.ts:87-91 | for a non-zero divisor, the result is `trunc(a.base * 10^pB / b.base)` rescaled from pA to the picked precision; a negative target throws |
| FixedPointLeft.DivDefault | src/FixedPoint.ts:87-91 | with no override, the base is the truncated quotient of `a.base * 10^pB` by `b.base`, at precision pA |
| FixedPointLeft.DivByZero | src/FixedPoint.ts:90 | a zero divisor base throws |
| FixedPointLeft.DivExample | src/FixedPoint.ts:83-92 | 1 / 3 at precision 9 is 0.333333333 |
| FixedPointLeft.Trichotomy | src/FixedPoint.ts:94-142 | the comparisons succeed or fail together; exactly one of lt, eq, gt holds; gte is not-lt, and lte is not-gt |
| FixedPointLeft.CompareValues | src/FixedPoint.ts:94-122 | when alignment truncates neither operand, eq, lt and gt compare the values |
| FixedPointLeft.CompareDefault | src/FixedPoint.ts:94-142 | with no override, all five comparisons compare the receiver's base with the argument's rewritten at pA (truncated when pB > pA) |
| FixedPointLeft.CompareAt | src/FixedPoint.ts:94-142 | at any non-negative picked precision n, all five comparisons compare both bases rewritten at n |
| FixedPointLeft.EqLeftAsymmetric | src/FixedPoint.ts:94-102 | under `left`, 1.00 equals 1.005, but 1.005 does not equal 1.00 |
| FixedPointMax.PickPrecision | src/index.ts:6-10 | an override wins; otherwise the larger of the two precisions |
| FixedPointMax.PickPrecisionIsMaxResolution | src/index.ts:6-10 | this policy is the first generation's `max` resolution |
| FixedPointMax.Aligned | src/index.ts:37-39 | the aligned pair sits at the picked precision; alignment fails only with the exponent error |
| FixedPointMax.AlignedIsMaxResolution | src/index.ts:37-39 | alignment is the first generation's, under `max` |
| FixedPointMax.Add | src/index.ts:33-42 | `add` returns the override precision when one is given |
| FixedPointMax.Sub | src/index.ts:44-52 | `sub`: the same |
| FixedPointMax.Mul | src/index.ts:54-63 | `mul`: the same |
| FixedPointMax.Div | src/index.ts:65-74 | `div`: the same |
| FixedPointMax.Eq | src/index.ts:76-84 | `eq` of a src/FixedPoint.ts value succeeds exactly when the alignment does (the comparison itself is stated by `Trichotomy`, `CompareValues` and `CompareAsWritten`) |
| FixedPointMax.Gt | src/index.ts:86-94 | `gt`: the same |
| FixedPointMax.Lt | src/index.ts:96-104 | `lt`: the same |
| FixedPointMax.Gte | src/index.ts:106-114 | `gte`: the same |
| FixedPointMax.Lte | src/index.ts:116-124 | `lte`: the same |
| FixedPointMax.AddAsMaxResolution | src/index.ts:33-42 | `add` equals the first generation's under `max` |
| FixedPointMax.SubAsMaxResolution | src/index.ts:44-52 | `sub` equals the first generation's under `max` |
| FixedPointMax.MulAsMaxResolution | src/index.ts:54-63 | `mul` equals the first generation's under `max` |
| FixedPointMax.ComparisonsAsMaxResolution | src/index.ts:76-124 | the five comparisons equal the first generation's under `max` |
| FixedPointMax.AddExact | src/index.ts:37-41 | with no override and a src/FixedPoint.ts operand, `add` succeeds at the larger precision and gives the exact sum |
| FixedPointMax.SubExact | src/index.ts:48-51 | with no override and a src/FixedPoint.ts operand, `sub` gives the exact difference |
| FixedPointMax.AddCommutes | src/index.ts:37-41 | for two src/FixedPoint.ts values and any result precision, `a.add(b)` equals `b.add(a)`, or both fail the same way |
| FixedPointMax.AddAt | src/index.ts:33-42 | at any non-negative picked precision n (e.g. `a.add(b, 0)`), `add` is the sum of both bases rewritten at n, at precision n |
| FixedPointMax.SubAt | src/index.ts:44-52 | at any non-negative picked precision n, `sub` is the difference of both bases rewritten at n, at precision n |
| FixedPointMax.CompareValues | src/index.ts:76-124 | with no override and a src/FixedPoint.ts operand, eq is `a.base*10^(m-pA) == b.base*10^(m-pB)`, and all five comparisons compare the values |
| FixedPointMax.CompareAt | src/index.ts:76-124 | at any non-negative picked precision n, all five comparisons compare both bases rewritten at n |
| FixedPointMax.Trichotomy | src/index.ts:86-124 | exactly one of lt, eq, gt holds; gte is not-lt, and lte is not-gt |
| FixedPointMax.MulDefault | src/index.ts:58-62 | with no override, the product is at precision max(pA, pB): the raw product divided by 10^min(pA, pB), truncated |
| FixedPointMax.DivQuotient | src/index.ts:65-74 | for a non-zero divisor and any picked precision n, the base is `toPrecision(trunc(a.base * 10^pB / b.base), n, pA + pB)`, i.e. that quotient rewritten from pA + pB to n; a negative n throws |
| FixedPointMax.DivDefault | src/index.ts:69-73 | with no override, the truncated quotient loses a further min(pA, pB) digits, because it is rescaled from pA + pB |
| FixedPointMax.DivByZero | src/index.ts:72 | a zero divisor base throws |
| FixedPointMax.DivDiffersFromLeft | src/index.ts:72-73 | 1 / 3 at precision 9 is 0.333333333 in the first generation and 0 in this one |
| FixedPointMax.SourceOperand | src/parsers.ts:45-52 | an instance of the src/index.ts class, handed to `FP`, is re-read as its raw base at precision 0 |
| FixedPointMax.AddThroughParsed | src/index.ts:34-41 | an operand that `FP` parses to c gives the same `add` as the value c |
| FixedPointMax.SubThroughParsed | src/index.ts:45-51 | the same for `sub` |
| FixedPointMax.MulThroughParsed | src/index.ts:55-62 | the same for `mul` |
| FixedPointMax.DivThroughParsed | src/index.ts:66-73 | the same for `div` |
| FixedPointMax.ComparedThroughParsed | src/index.ts:76-124 | the same for the five comparisons |
| FixedPointMax.SourceOperandAsValue | src/index.ts:33-124 | as written, every operator given a src/index.ts instance b computes with the value (b.base, 0) |
| FixedPointMax.AddAsWritten | src/index.ts:33-42 | as written, `a.add(b)` between src/index.ts instances is `a.add((b.base, 0))`; with no override it is `a.base + b.base * 10^pA` at precision pA |
| FixedPointMax.CompareAsWritten | src/index.ts:76-124 | as written, with no override, the comparisons with a src/index.ts instance b compare a.base with `b.base * 10^pA` |
| FixedPointMax.AddAsWrittenDiffers | src/index.ts:33-42 | as written, `(15, 1).add((10, 1))` between src/index.ts instances is (115, 1), and `(10, 1).add((15, 1))` is (160, 1), where the values themselves give (25, 1) |
| FixedPointMax.EqAsWrittenNotReflexive | src/index.ts:76-84 | as written, `(15, 1).eq((15, 1))` between src/index.ts instances is false, where the value itself gives true |

## Left out

- Numbers as bases or precisions. `parseBase` formats a JS `number` with
  `toString`, which is floating point with engine-specific exponent limits. A
  base is text or a bigint here, and a precision is an integer.
- The full grammar of `BigInt(text)`. The model reads an optional '-'
  followed by decimal digits; the empty text is 0n. Whitespace, '+', hex and
  similar forms are not read.
- The full grammar of `Number(text)` for an exponent. The model reads "", or
  digits with an optional sign, and gives the not-an-integer error on every
  other text. `Number` also reads a fraction of zeros ("2.0"), a trailing
  point ("2."), surrounding whitespace (" 2"), an 'E' exponent ("2E1") and
  hex ("0x10") as integers, so the source accepts these where the model
  fails: `parseBase("1e2.0")` is `[100n, 0n]` in the source and
  `Failure(NotAnInteger)` here. The precision loss of exponents beyond 2^53
  is not modelled.
- `padStart`'s RangeError for a length beyond the engine's string limit.
- `toDecimal` and `valueOf`: they convert to a floating-point `number`.
- The `console.log` in the src/index.ts `add`: it is output.
- `[Symbol.iterator]`: a generator that yields the two fields.
- `this.constructor` dispatch and the overridable `parser` field. Each
  class is one value type whose parser is `FP`. The subclasses and the
  currency parsers in src/index.spec.ts are left out too.
- The tests in src/FixedPoint.spec.ts past the constructor test. They
  import `Decimals`, `fpFromDecimal` and `fpFromInt`, which the source
  does not define.
- A real-number bound on `div`. `FixedPointLeft.DivDefault` and
  `FixedPointMax.DivDefault` give the result by truncated division. They do
  not bound its distance from the real quotient.

## Findings

| source | as written | input that shows it | evidently intended | confidence | as-written member | corrected member |
|---|---|---|---|---|---|---|
| src/parsers.ts:45-52 | `FP` tests `instanceof` against the class src/parsers.ts imports from './FixedPoint'. An instance of the src/index.ts class fails that test. `parseBase` then reads it through its `toString()`: its raw base at precision 0. | `new FixedPoint(15n, 1n).add(new FixedPoint(10n, 1n))` with the src/index.ts class gives (115, 1), which is 11.5 | the operand taken as the value it is: (25, 1), 2.5 | medium; not executed | FixedPointMax.AddAsWrittenDiffers | FixedPointMax.AddExact |
| src/parsers.ts:45-52 | The same `instanceof` test, for the comparisons of src/index.ts:76-124: the argument is compared as its raw base read as an integer. | `x.eq(x)` for `x = new FixedPoint(15n, 1n)` of the src/index.ts class is false | `eq` reflexive, comparing values: true | medium; not executed | FixedPointMax.EqAsWrittenNotReflexive | FixedPointMax.CompareValues |
