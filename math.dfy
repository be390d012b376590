/** The scaled-integer primitives of src/math.ts: rescaling a base between
    precisions, and `min`, `max` and `abs` over bigints. */
module FixedMath {
  import opened Results
  import opened JsBigInt

  /** `toPrecision(base, to, from)`: base, read at precision `from`, written at
      precision `to`.  Equal precisions return base untouched; otherwise the
      result is `base * 10n ** to / 10n ** from`, which throws for a negative
      precision and truncates toward zero when narrowing. */
  function ToPrecision(base: int, to: int, from: int): (r: Result<int>)
    ensures to == from ==> r == Success(base)
    ensures to != from ==> (r.Success? <==> to >= 0 && from >= 0)
    ensures r.Failure? ==> r.error == NegativeExponent
  {
    if to == from then
      Success(base)
    else
      var scale :- Exp10(to);
      var divisor :- Exp10(from);
      Quot(base * scale, divisor)
  }

  /** Widening by k digits is exact: the base is multiplied by 10^k. */
  lemma ToPrecisionWiden(base: int, p: nat, k: nat)
    ensures ToPrecision(base, p + k, p) == Success(base * Pow10(k))
  {
    if k > 0 {
      var x, d := base * Pow10(k), Pow10(p);
      assert ToPrecision(base, p + k, p) == Quot(base * Pow10(p + k), d);
      Pow10Add(k, p);
      MulAssoc(base, Pow10(k), d);
      TruncDivMultiple(x, d);
    }
  }

  lemma MulAssoc(x: int, y: int, z: int)
    ensures x * (y * z) == (x * y) * z
  {
  }

  /** Narrowing by k digits divides by 10^k, truncating toward zero. */
  lemma ToPrecisionNarrow(base: int, p: nat, k: nat)
    ensures ToPrecision(base, p, p + k) == Success(TruncDiv(base, Pow10(k)))
  {
    if k == 0 {
      TruncDivMultiple(base, 1);
    } else {
      assert ToPrecision(base, p, p + k) == Quot(base * Pow10(p), Pow10(p + k));
      Pow10Add(k, p);
      TruncDivCancel(base, Pow10(p), Pow10(k));
    }
  }

  /** Widening and then narrowing back is the identity. */
  lemma ToPrecisionWidenNarrow(base: int, p: nat, k: nat)
    ensures ToPrecision(base, p + k, p).Success?
    ensures ToPrecision(ToPrecision(base, p + k, p).value, p, p + k) == Success(base)
  {
    ToPrecisionWiden(base, p, k);
    ToPrecisionNarrow(base * Pow10(k), p, k);
    TruncDivMultiple(base, Pow10(k));
  }

  /** One step of `args.reduce((m, e) => e < m ? e : m)`, continued over rest. */
  function MinFrom(acc: int, rest: seq<int>): (m: int)
    ensures m == acc || m in rest
    ensures m <= acc && forall e :: e in rest ==> m <= e
    decreases |rest|
  {
    if |rest| == 0 then acc else
      assert rest == [rest[0]] + rest[1..];
      MinFrom(if rest[0] < acc then rest[0] else acc, rest[1..])
  }

  /** One step of `args.reduce((m, e) => e > m ? e : m)`, continued over rest. */
  function MaxFrom(acc: int, rest: seq<int>): (m: int)
    ensures m == acc || m in rest
    ensures m >= acc && forall e :: e in rest ==> m >= e
    decreases |rest|
  {
    if |rest| == 0 then acc else
      assert rest == [rest[0]] + rest[1..];
      MaxFrom(if rest[0] > acc then rest[0] else acc, rest[1..])
  }

  /** `min(...args)`: an argument no larger than any other; `reduce` without
      an initial value throws on an empty argument list. */
  function Min(args: seq<int>): (r: Result<int>)
    ensures r.Success? <==> |args| > 0
    ensures r.Failure? ==> r.error == EmptyReduce
    ensures r.Success? ==> r.value in args && forall e :: e in args ==> r.value <= e
  {
    if |args| == 0 then Failure(EmptyReduce)
    else
      assert args == [args[0]] + args[1..];
      Success(MinFrom(args[0], args[1..]))
  }

  /** `max(...args)`: an argument no smaller than any other; throws on an
      empty argument list. */
  function Max(args: seq<int>): (r: Result<int>)
    ensures r.Success? <==> |args| > 0
    ensures r.Failure? ==> r.error == EmptyReduce
    ensures r.Success? ==> r.value in args && forall e :: e in args ==> r.value >= e
  {
    if |args| == 0 then Failure(EmptyReduce)
    else
      assert args == [args[0]] + args[1..];
      Success(MaxFrom(args[0], args[1..]))
  }

  /** `abs(arg)`: the magnitude of arg. */
  function Abs(x: int): (r: int)
    ensures r >= 0 && (r == x || r == -x)
  {
    if x < 0 then -x else x
  }
}
