/** Quotes of the Angle transmuter over a piecewise-linear fee, in exact arithmetic. */
module TransmuterQuotes {
  import opened Wrappers
  import opened FeeCurve

  const BASE_9 := 1.0
  const BASE_12 := 1000.0
  const MAX_BURN_FEE := 0.999

  datatype QuoteType = MintExactInput | MintExactOutput | BurnExactInput | BurnExactOutput

  datatype Fees = Fees(xFeeMint: seq<real>, yFeeMint: seq<real>, xFeeBurn: seq<real>, yFeeBurn: seq<real>)

  /** A quote is refused, or a division by zero answers with no finite number. */
  datatype SwapError = InvalidSwap | Infinite | NotANumber

  predicate IsMint(q: QuoteType) {
    q == MintExactInput || q == MintExactOutput
  }

  predicate IsExact(q: QuoteType) {
    q == MintExactOutput || q == BurnExactInput
  }

  /** What one stablecoin costs (mint) or yields (burn) at a given fee. */
  function Price(isMint: bool, fee: real): real {
    if isMint then BASE_9 + fee else BASE_9 - fee
  }

  /** The fee at which a quote is refused, as a price. */
  predicate Chargeable(isMint: bool, price: real) {
    if isMint then price < BASE_9 + BASE_12 else price > BASE_9 - MAX_BURN_FEE
  }

  /** A mint price of zero divides by zero where the amount is divided by it. */
  predicate Divides(q: QuoteType, price: real) {
    q == MintExactInput ==> price != 0.0
  }

  /** There it should be positive. */
  predicate Rises(q: QuoteType, price: real) {
    q == MintExactInput ==> price > 0.0
  }

  function Abs(x: real): real {
    if x < 0.0 then -x else x
  }

  // ----- charging a fee -----

  function Over(n: real, d: real): (r: Result<real, SwapError>)
    ensures r != Failure(InvalidSwap)
    ensures r.Success? <==> d != 0.0
    ensures r.Success? ==> r.value * d == n
  {
    if d != 0.0 then Success(n / d) else if n == 0.0 then Failure(NotANumber) else Failure(Infinite)
  }

  function ApplyFeeMint(amountIn: real, fees: real): (r: Result<real, SwapError>)
    ensures r == Failure(InvalidSwap) <==> !Chargeable(true, Price(true, fees))
    ensures r.Success? <==> Chargeable(true, Price(true, fees)) && Price(true, fees) != 0.0
    ensures r.Success? ==> r.value * Price(true, fees) == amountIn
  {
    if fees >= 0.0 then
      if fees >= BASE_12 then Failure(InvalidSwap) else Over(amountIn * BASE_9, BASE_9 + fees)
    else Over(amountIn * BASE_9, BASE_9 - Abs(-fees))
  }

  function InvertFeeMint(amountOut: real, fees: real): (r: Result<real, SwapError>)
    ensures r.Success? || r.error == InvalidSwap
    ensures r.Success? <==> Chargeable(true, Price(true, fees))
    ensures r.Success? ==> r.value == amountOut * Price(true, fees)
  {
    if fees >= 0.0 then
      if fees >= BASE_12 then Failure(InvalidSwap) else Success(amountOut * (BASE_9 + fees) / BASE_9)
    else Success(amountOut * (BASE_9 - Abs(-fees)) / BASE_9)
  }

  function ApplyFeeBurn(amountIn: real, fees: real): (r: Result<real, SwapError>)
    ensures r.Success? || r.error == InvalidSwap
    ensures r.Success? <==> Chargeable(false, Price(false, fees))
    ensures r.Success? ==> r.value == amountIn * Price(false, fees)
  {
    if fees >= 0.0 then
      if fees >= MAX_BURN_FEE then Failure(InvalidSwap) else Success((BASE_9 - fees) * amountIn / BASE_9)
    else Success((BASE_9 + Abs(-fees)) * amountIn / BASE_9)
  }

  function InvertFeeBurn(amountOut: real, fees: real): (r: Result<real, SwapError>)
    ensures r.Success? || r.error == InvalidSwap
    ensures r.Success? <==> Chargeable(false, Price(false, fees))
    ensures r.Success? ==> r.value * Price(false, fees) == amountOut
  {
    if fees >= 0.0 then
      if fees >= MAX_BURN_FEE then Failure(InvalidSwap) else Success(amountOut * BASE_9 / (BASE_9 - fees))
    else Success(amountOut * BASE_9 / (BASE_9 + Abs(-fees)))
  }

  function ComputeFee(q: QuoteType, amount: real, fees: real): (r: Result<real, SwapError>)
    ensures r == Failure(InvalidSwap) <==> !Chargeable(IsMint(q), Price(IsMint(q), fees))
    ensures r.Success? <==> Chargeable(IsMint(q), Price(IsMint(q), fees)) && Divides(q, Price(IsMint(q), fees))
  {
    match q
    case MintExactInput => ApplyFeeMint(amount, fees)
    case MintExactOutput => InvertFeeMint(amount, fees)
    case BurnExactInput => ApplyFeeBurn(amount, fees)
    case BurnExactOutput => InvertFeeBurn(amount, fees)
  }

  /** Exact quotes multiply by the price. */
  lemma ChargedExact(q: QuoteType, amount: real, fees: real, p: real, r: real)
    requires IsExact(q) && p == Price(IsMint(q), fees) && ComputeFee(q, amount, fees) == Success(r)
    ensures r == amount * p
  {
    if q == MintExactOutput {
      assert InvertFeeMint(amount, fees) == Success(r);
    } else {
      assert ApplyFeeBurn(amount, fees) == Success(r);
    }
  }

  /** The other quotes divide by it. */
  lemma ChargedInverse(q: QuoteType, amount: real, fees: real, p: real, r: real)
    requires !IsExact(q) && p == Price(IsMint(q), fees) && ComputeFee(q, amount, fees) == Success(r)
    ensures r * p == amount
  {
    if q == MintExactInput {
      assert ApplyFeeMint(amount, fees) == Success(r);
    } else {
      assert InvertFeeBurn(amount, fees) == Success(r);
    }
  }

  /** Mint fees are refused from 100000 per cent on, burn fees from 99.9 per cent on; a fee of a quarter
      is paid on top of a mint, and kept from a burn. */
  lemma ChargedInNumbers(fee: real)
    ensures ComputeFee(MintExactOutput, 1.0, fee).Success? <==> fee < 1000.0
    ensures ComputeFee(BurnExactInput, 1.0, fee).Success? <==> fee < 0.999
    ensures ComputeFee(MintExactInput, 100.0, 0.25) == Success(80.0)
    ensures ComputeFee(MintExactOutput, 80.0, 0.25) == Success(100.0)
    ensures ComputeFee(BurnExactInput, 80.0, 0.25) == Success(60.0)
    ensures ComputeFee(BurnExactOutput, 60.0, 0.25) == Success(80.0)
  {
  }

  // ----- the fee table as a curve over the issued supply -----

  /** Exposures are strictly monotone, and below 1 wherever the issued supply at that exposure is
      needed: only the first burn exposure may be 1, when the fee is constant after it. */
  ghost predicate ValidTable(isMint: bool, x: seq<real>, y: seq<real>) {
    && |x| == |y| > 0
    && (forall i, j | 0 <= i < j < |x| :: if isMint then x[i] < x[j] else x[i] > x[j])
    && (forall i | (if isMint then 0 else 1) <= i < |x| :: x[i] < 1.0)
    && x[0] <= 1.0
    && (x[0] == 1.0 && |x| > 1 ==> y[0] == y[1])
  }

  /** The supply issued against a collateral when its exposure is `x`. */
  function SupplyAt(other: real, x: real): real
    requires x < 1.0
  {
    other * x / (BASE_9 - x)
  }

  function Position(isMint: bool, issued: real): real {
    if isMint then issued else -issued
  }

  ghost function BreakPosition(isMint: bool, other: real, x: seq<real>, i: nat): real
    requires i < |x| && forall j | 1 <= j < |x| :: x[j] < 1.0
  {
    if x[i] < 1.0 then Position(isMint, SupplyAt(other, x[i]))
    else if |x| > 1 then Position(isMint, SupplyAt(other, x[1])) - 1.0
    else 0.0
  }

  ghost function CurveOf(isMint: bool, x: seq<real>, y: seq<real>, other: real): (c: Curve)
    requires ValidTable(isMint, x, y) && other > 0.0
    ensures c.Valid() && |c.pos| == |x|
  {
    var c := Curve(seq(|x|, i requires 0 <= i < |x| => BreakPosition(isMint, other, x, i)),
                   seq(|y|, i requires 0 <= i < |y| => Price(isMint, y[i])));
    assert forall i, j | 0 <= i < j < |x| :: c.pos[i] < c.pos[j] by {
      forall i, j | 0 <= i < j < |x|
        ensures c.pos[i] < c.pos[j]
      {
        BreakOrder(isMint, other, x, y, i, j);
      }
    }
    c
  }

  /** `c` is the curve of the table; its positions are only looked up on demand. */
  ghost predicate Draws(c: Curve, isMint: bool, x: seq<real>, y: seq<real>, other: real)
    requires ValidTable(isMint, x, y)
  {
    && c.Valid() && |c.pos| == |x|
    && (forall i: nat {:trigger BreakPosition(isMint, other, x, i)} | i < |x| ::
          c.pos[i] == BreakPosition(isMint, other, x, i))
    && (forall i {:trigger y[i]} | 0 <= i < |y| :: c.price[i] == Price(isMint, y[i]))
  }

  lemma SupplyOrder(other: real, a: real, b: real)
    requires other > 0.0 && a < b < 1.0
    ensures SupplyAt(other, a) < SupplyAt(other, b)
  {
    Quotient(other * a, BASE_9 - a);
    Quotient(other * b, BASE_9 - b);
    var u, v := SupplyAt(other, a), SupplyAt(other, b);
    Cross(other, a, b, u, v);
  }

  lemma Quotient(x: real, y: real)
    requires y != 0.0
    ensures x / y * y == x
  {
  }

  lemma Cross(other: real, a: real, b: real, u: real, v: real)
    requires other > 0.0 && a < b < 1.0
    requires u * (1.0 - a) == other * a && v * (1.0 - b) == other * b
    ensures u < v
  {
    var k := (1.0 - a) * (1.0 - b);
    Curve.Product(1.0 - a, 1.0 - b);
    assert u * k == other * a * (1.0 - b);
    assert v * k == other * b * (1.0 - a);
    assert v * k - u * k == other * (b - a);
    assert other * (b - a) > 0.0;
    assert (v - u) * k > 0.0;
  }

  lemma BreakOrder(isMint: bool, other: real, x: seq<real>, y: seq<real>, i: nat, j: nat)
    requires ValidTable(isMint, x, y) && other > 0.0 && i < j < |x|
    ensures BreakPosition(isMint, other, x, i) < BreakPosition(isMint, other, x, j)
  {
    if isMint {
      SupplyOrder(other, x[i], x[j]);
    } else if x[i] < 1.0 {
      SupplyOrder(other, x[j], x[i]);
    } else if j > 1 {
      SupplyOrder(other, x[j], x[1]);
    }
  }

  /** An exposure is that of the supply actually issued. */
  lemma ExposureOf(other: real, issued: real)
    requires other > 0.0 && other + issued > 0.0
    ensures var e := issued * BASE_9 / (other + issued); e < 1.0 && SupplyAt(other, e) == issued
  {
    var e := issued * BASE_9 / (other + issued);
    Quotient(issued * BASE_9, other + issued);
    assert (1.0 - e) * (other + issued) == other;
    assert 1.0 - e > 0.0;
    Quotient(other * e, 1.0 - e);
    SameSupply(other, e, issued, SupplyAt(other, e));
  }

  lemma SameSupply(other: real, e: real, issued: real, u: real)
    requires e * (other + issued) == issued && e < 1.0
    requires u * (1.0 - e) == other * e
    ensures u == issued
  {
    assert issued * (1.0 - e) == other * e;
    ZeroFactor(u - issued, 1.0 - e);
  }

  lemma ZeroFactor(a: real, b: real)
    requires a * b == 0.0 && b != 0.0
    ensures a == 0.0
  {
  }

  // ----- finding the segment -----

  /** `array[i] <= element`, or the reverse for a decreasing array. */
  predicate Reached(increasing: bool, value: real, element: real) {
    if increasing then value <= element else value >= element
  }

  method FindLowerBound(increasing: bool, array': seq<real>, normalizer: real, element: real) returns (r: nat)
    requires normalizer == BASE_9
    requires forall i, j | 0 <= i < j < |array'| :: if increasing then array'[i] < array'[j] else array'[i] > array'[j]
    ensures array' == [] ==> r == 0
    ensures array' != [] ==> r < |array'|
    ensures forall k | 0 < k < |array'| :: Reached(increasing, array'[k], element) <==> k <= r
  {
    if |array'| == 0 {
      return 0;
    }
    var low, high := 1, |array'|;
    if (increasing && array'[high - 1] * normalizer <= element)
       || (!increasing && array'[high - 1] * normalizer >= element) {
      return high - 1;
    }
    while low < high
      invariant 1 <= low <= high <= |array'|
      invariant forall k | 0 < k < low :: Reached(increasing, array'[k], element)
      invariant forall k | high <= k < |array'| :: !Reached(increasing, array'[k], element)
      invariant !Reached(increasing, array'[|array'| - 1], element)
    {
      var mid := (low + high) / 2;
      if (if increasing then array'[mid] * normalizer > element else array'[mid] * normalizer < element) {
        high := mid;
      } else {
        low := mid + 1;
      }
    }
    return low - 1;
  }

  lemma StartSegment(isMint: bool, x: seq<real>, y: seq<real>, other: real, issued: real, i: nat)
    requires ValidTable(isMint, x, y) && other > 0.0 && other + issued > 0.0 && i < |x|
    requires forall k | 0 < k < |x| :: Reached(isMint, x[k], issued * BASE_9 / (other + issued)) <==> k <= i
    ensures CurveOf(isMint, x, y, other).Holds(i, Position(isMint, issued))
    ensures issued * BASE_9 / (other + issued) == x[i] ==>
              Position(isMint, issued) == CurveOf(isMint, x, y, other).pos[i]
  {
    var e := issued * BASE_9 / (other + issued);
    ExposureOf(other, issued);
    if i > 0 && x[i] != e {
      if isMint { SupplyOrder(other, x[i], e); } else { SupplyOrder(other, e, x[i]); }
    }
    if i + 1 < |x| {
      if isMint { SupplyOrder(other, e, x[i + 1]); } else { SupplyOrder(other, x[i + 1], e); }
    }
  }

  // ----- one segment -----

  function AmountToNext(isMint: bool, issued: real, other: real, upperExposure: real): real
    requires upperExposure < 1.0
  {
    if isMint then SupplyAt(other, upperExposure) - issued else issued - SupplyAt(other, upperExposure)
  }

  function AmountFromPrev(isMint: bool, issued: real, other: real, lowerExposure: real): real
    requires lowerExposure < 1.0
  {
    if isMint then issued - SupplyAt(other, lowerExposure) else SupplyAt(other, lowerExposure) - issued
  }

  function CurrentFees(isMint: bool, lowerExposure: real, lowerFees: real, upperFees: real,
                       currentExposure: real, issued: real, other: real, amountToNext: real): real
    requires lowerFees != upperFees && lowerExposure * BASE_9 != currentExposure ==>
               lowerExposure < 1.0 && amountToNext + AmountFromPrev(isMint, issued, other, lowerExposure) != 0.0
  {
    if lowerExposure * BASE_9 == currentExposure then lowerFees
    else if lowerFees == upperFees then lowerFees
    else
      FeeBetween(lowerFees, upperFees, AmountFromPrev(isMint, issued, other, lowerExposure), amountToNext)
  }

  function FeeBetween(lowerFees: real, upperFees: real, amountFromPrev: real, amountToNext: real): real
    requires amountToNext + amountFromPrev != 0.0
  {
    lowerFees + (upperFees - lowerFees) * amountFromPrev / (amountToNext + amountFromPrev)
  }

  /** The fee in force at the present supply is the point of the curve there. */
  lemma CurrentFeesPrice(isMint: bool, x: seq<real>, y: seq<real>, other: real, issued: real, exposure: real, i: nat,
                         c: Curve, t: real)
    requires ValidTable(isMint, x, y) && other > 0.0 && i + 1 < |x|
    requires Draws(c, isMint, x, y, other) && t == Position(isMint, issued)
    requires exposure == x[i] ==> t == c.pos[i]
    requires x[i] < 1.0 || exposure < 1.0
    ensures var b := AmountToNext(isMint, issued, other, x[i + 1]);
            && b == c.pos[i + 1] - t
            && (y[i] != y[i + 1] && x[i] * BASE_9 != exposure ==>
                  x[i] < 1.0 && b + AmountFromPrev(isMint, issued, other, x[i]) != 0.0)
            && Price(isMint, CurrentFees(isMint, x[i], y[i], y[i + 1], exposure, issued, other, b)) ==
               c.LineAt(i, t)
  {
    assert c.pos[i] == BreakPosition(isMint, other, x, i) && c.pos[i + 1] == BreakPosition(isMint, other, x, i + 1);
    c.LineEnds(i);
    var b := AmountToNext(isMint, issued, other, x[i + 1]);
    if x[i] == exposure {
    } else if y[i] == y[i + 1] {
      FlatLine(c, i, t);
    } else {
      var a := AmountFromPrev(isMint, issued, other, x[i]);
      assert a == t - c.pos[i];
      LineFormula(c, i, t, a, b + a);
      Interpolate(isMint, y[i], y[i + 1], a, b, c.LineAt(i, t), c.price[i], c.price[i + 1]);
    }
  }

  lemma LineFormula(c: Curve, i: nat, t: real, a: real, w: real)
    requires c.Valid() && i + 1 < |c.pos| && a == t - c.pos[i] && w == c.pos[i + 1] - c.pos[i]
    ensures c.LineAt(i, t) == c.price[i] + (c.price[i + 1] - c.price[i]) / w * a
  {
  }

  lemma FlatLine(c: Curve, i: nat, t: real)
    requires c.Valid() && i + 1 < |c.pos| && c.price[i] == c.price[i + 1]
    ensures c.LineAt(i, t) == c.price[i]
  {
    assert c.Slope(i) == 0.0;
  }

  lemma Interpolate(isMint: bool, lower: real, upper: real, a: real, b: real, line: real, p: real, f: real)
    requires b + a != 0.0 && p == Price(isMint, lower) && f == Price(isMint, upper)
    requires line == p + (f - p) / (b + a) * a
    ensures Price(isMint, FeeBetween(lower, upper, a, b)) == line
  {
    var d, w := upper - lower, b + a;
    Quotient(d, w);
    Quotient(d * a, w);
    Quotient(-d, w);
    Divided(d, a, w, d / w, d * a / w, (-d) / w);
  }

  lemma Divided(d: real, a: real, w: real, q: real, r: real, n: real)
    requires w != 0.0 && q * w == d && r * w == d * a && n * w == -d
    ensures r == q * a && n == -q
  {
    assert (r - q * a) * w == 0.0;
    assert (n + q) * w == 0.0;
  }

  /** The average price of a whole segment, charged on the amount up to its end. */
  function SegmentCost(isMint: bool, amountToNext: real, upperFees: real, currentFees: real)
    : (r: Result<real, SwapError>)
    ensures r.Success? <==> Chargeable(isMint, Mid(Price(isMint, currentFees), Price(isMint, upperFees)))
    ensures r.Success? || r.error == InvalidSwap
    ensures r.Success? ==> r.value == amountToNext * Mid(Price(isMint, currentFees), Price(isMint, upperFees))
  {
    var average := (upperFees + currentFees) / 2.0;
    assert Price(isMint, average) == Mid(Price(isMint, currentFees), Price(isMint, upperFees));
    if isMint then InvertFeeMint(amountToNext, average) else ApplyFeeBurn(amountToNext, average)
  }

  /** `Math.sqrt`, on the numbers it is used for. */
  ghost predicate IsSqrt(sqrt: real -> real) {
    forall x {:trigger sqrt(x)} | x >= 0.0 :: sqrt(x) >= 0.0 && sqrt(x) * sqrt(x) == x
  }

  function MidFee(isMint: bool, isExact: bool, currentFees: real, upperFees: real, amountStable: real,
                  amountToNext: real, sqrt: real -> real): real
    requires amountToNext != 0.0
  {
    if isExact then currentFees + amountStable * (upperFees - currentFees) / (2.0 * amountToNext)
    else
      var ac4 := BASE_9 * (2.0 * amountStable * (upperFees - currentFees)) / amountToNext;
      if isMint then
        (sqrt((BASE_9 + currentFees) * (BASE_9 + currentFees) + ac4) + currentFees - BASE_9) / 2.0
      else
        var baseMinusCurrentSquared := (BASE_9 - currentFees) * (BASE_9 - currentFees);
        if baseMinusCurrentSquared < ac4 then (currentFees + BASE_9) / 2.0
        else (currentFees + BASE_9 - sqrt(baseMinusCurrentSquared - ac4)) / 2.0
  }

  // ----- the last, partial segment -----

  /** Moving `m` along a segment of length `b` from price `g` towards price `f`. */
  function Along(g: real, f: real, b: real, m: real): real
    requires b != 0.0
  {
    g + (f - g) / b * m
  }

  lemma AlongLine(c: Curve, i: nat, t: real, m: real, g: real, f: real, b: real)
    requires c.Valid() && i + 1 < |c.pos| && t < c.pos[i + 1]
    requires g == c.LineAt(i, t) && f == c.price[i + 1] && b == c.pos[i + 1] - t
    ensures Along(g, f, b, m) == c.LineAt(i, t + m)
  {
    c.LineEnds(i);
    SameSlope(c.price[i], c.Slope(i), c.pos[i], t, c.pos[i + 1], m, g, f);
  }

  lemma SameSlope(p: real, s: real, a: real, t: real, w: real, m: real, g: real, f: real)
    requires t < w && g == p + s * (t - a) && f == p + s * (w - a)
    ensures g + (f - g) / (w - t) * m == p + s * (t + m - a)
  {
    assert f - g == s * (w - t);
    Quotient(f - g, w - t);
    ZeroFactor((f - g) / (w - t) - s, w - t);
  }

  lemma MidFeeExact(isMint: bool, cf: real, uf: real, m: real, b: real, sqrt: real -> real)
    requires b > 0.0
    ensures var g, f := Price(isMint, cf), Price(isMint, uf);
            Price(isMint, MidFee(isMint, true, cf, uf, m, b, sqrt)) == Mid(g, Along(g, f, b, m))
  {
    var d := uf - cf;
    Quotient(m * d, 2.0 * b);
    Quotient(d, b);
    Quotient(-d, b);
    HalfStep(d, m, b, m * d / (2.0 * b), d / b, (-d) / b);
  }

  lemma HalfStep(d: real, m: real, b: real, h: real, q: real, n: real)
    requires b > 0.0 && h * (2.0 * b) == m * d && q * b == d && n * b == -d
    ensures h == q * m / 2.0 && -h == n * m / 2.0
  {
    ZeroFactor(2.0 * h - q * m, b);
    ZeroFactor(q + n, b);
  }

  /** The price reached when an amount of value `v` is spent, from the closed form of the program. */
  ghost function Radicand(g: real, f: real, b: real, v: real): real
    requires b != 0.0
  {
    g * g + 2.0 * v * ((f - g) / b)
  }

  /** The square root is never asked of a negative number: the fallback for one is dead. */
  lemma RadicandNonNegative(g: real, f: real, b: real, v: real)
    requires b > 0.0 && 0.0 <= v <= b * Mid(g, f)
    ensures Radicand(g, f, b, v) >= 0.0
  {
    var k := (f - g) / b;
    Quotient(f - g, b);
    if k >= 0.0 {
      assert v * k >= 0.0;
    } else {
      Order(k, v, b * Mid(g, f));
      Squares(g, f, b, k);
    }
  }

  lemma Order(k: real, v: real, w: real)
    requires k < 0.0 && v <= w
    ensures k * w <= k * v
  {
  }

  lemma Squares(g: real, f: real, b: real, k: real)
    requires k * b == f - g
    ensures g * g + 2.0 * (k * (b * Mid(g, f))) == f * f
  {
    assert k * (b * Mid(g, f)) == (k * b) * Mid(g, f);
  }

  lemma MidFeeInverse(isMint: bool, cf: real, uf: real, v: real, b: real, sqrt: real -> real)
    requires IsSqrt(sqrt) && b > 0.0
    requires 0.0 <= v <= b * Mid(Price(isMint, cf), Price(isMint, uf))
    ensures var g, f := Price(isMint, cf), Price(isMint, uf);
            Radicand(g, f, b, v) >= 0.0 &&
            Price(isMint, MidFee(isMint, false, cf, uf, v, b, sqrt)) == Mid(g, sqrt(Radicand(g, f, b, v)))
  {
    var g, f := Price(isMint, cf), Price(isMint, uf);
    RadicandNonNegative(g, f, b, v);
    var d := uf - cf;
    var ac4 := BASE_9 * (2.0 * v * (uf - cf)) / b;
    Quotient(BASE_9 * (2.0 * v * (uf - cf)), b);
    Quotient(f - g, b);
    SameRadicand(d, f - g, v, b, ac4, (f - g) / b, isMint);
    var r := Radicand(g, f, b, v);
    if isMint {
      assert (BASE_9 + cf) * (BASE_9 + cf) + ac4 == r;
    } else {
      assert (BASE_9 - cf) * (BASE_9 - cf) - ac4 == r;
    }
  }

  lemma SameRadicand(d: real, e: real, v: real, b: real, ac4: real, k: real, isMint: bool)
    requires b > 0.0 && ac4 * b == 2.0 * v * d && k * b == e
    requires e == if isMint then d else -d
    ensures ac4 == if isMint then 2.0 * v * k else -(2.0 * v * k)
  {
    if isMint {
      ZeroFactor(ac4 - 2.0 * v * k, b);
    } else {
      ZeroFactor(ac4 + 2.0 * v * k, b);
    }
  }

  /** Dividing by that mid price recovers the amount: it lies on the segment, the price reached
      there is the root, and what it costs is what was spent. */
  lemma InverseStep(g: real, f: real, b: real, v: real, s: real, m: real, p: real)
    requires b > 0.0 && 0.0 <= v <= b * Mid(g, f)
    requires s >= 0.0 && s * s == Radicand(g, f, b, v)
    requires p == Mid(g, s) && p > 0.0 && m * p == v
    ensures 0.0 <= m <= b && s == Along(g, f, b, m)
  {
    var k := (f - g) / b;
    Quotient(f - g, b);
    assert m >= 0.0 by {
      if m < 0.0 {
        Curve.Product(-m, p);
      }
    }
    assert (s - k * m - g) * (g + s) == s * s - g * g - k * (m * (g + s));
    assert m * (g + s) == 2.0 * v;
    ZeroFactor(s - k * m - g, g + s);
    if b < m {
      Beyond(g, f, s, k, b, m);
    }
  }

  lemma Beyond(g: real, f: real, s: real, k: real, b: real, m: real)
    requires 0.0 < b < m && s == g + k * m && f == g + k * b && s >= 0.0 && g + s > 0.0
    ensures b * Mid(g, f) < m * Mid(g, s)
  {
    var km, kb := k * m, k * b;
    EndsPositive(g, f, s, k, b, m, km, kb);
    Curve.Product(m - b, f + s);
    Regroup(k, m, b, km, kb);
    Expand(g, f, s, b, m, km, kb);
  }

  lemma EndsPositive(g: real, f: real, s: real, k: real, b: real, m: real, km: real, kb: real)
    requires 0.0 < b < m && km == k * m && kb == k * b
    requires s == g + km && f == g + kb && s >= 0.0 && g + s > 0.0
    ensures f + s > 0.0
  {
    if k >= 0.0 {
      assert kb >= 0.0;
    } else {
      Curve.Product(-k, m - b);
      assert -k * (m - b) == kb - km;
    }
  }

  lemma Regroup(k: real, m: real, b: real, km: real, kb: real)
    requires km == k * m && kb == k * b
    ensures m * kb == b * km
  {
  }

  lemma Expand(g: real, f: real, s: real, b: real, m: real, km: real, kb: real)
    requires s == g + km && f == g + kb && m * kb == b * km
    ensures m * (g + s) - b * (g + f) == (m - b) * (f + s)
  {
    assert m * (g + s) == 2.0 * (m * g) + m * km;
    assert b * (g + f) == 2.0 * (b * g) + b * kb;
    assert (m - b) * (f + s) == 2.0 * (m * g) - 2.0 * (b * g) + m * kb + m * km - b * kb - b * km;
  }

  /** The price charged on the last part is the mean of the prices at its two ends, and the exact
      quote of that part is the area under them. */
  lemma PartialExact(q: QuoteType, c: Curve, i: nat, t: real, cf: real, uf: real, m: real, b: real,
                     sqrt: real -> real)
    requires c.Valid() && c.Holds(i, t) && i + 1 < |c.pos| && IsExact(q)
    requires Price(IsMint(q), cf) == c.LineAt(i, t) && Price(IsMint(q), uf) == c.price[i + 1]
    requires 0.0 <= m <= b == c.pos[i + 1] - t
    ensures var fee := MidFee(IsMint(q), true, cf, uf, m, b, sqrt);
            && Price(IsMint(q), fee) == Mid(c.LineAt(i, t), c.LineAt(i, t + m))
            && (ComputeFee(q, m, fee).Success? ==> ComputeFee(q, m, fee).value == c.Cost(t, m))
  {
    var fee := MidFee(IsMint(q), true, cf, uf, m, b, sqrt);
    MidFeeExact(IsMint(q), cf, uf, m, b, sqrt);
    AlongLine(c, i, t, m, c.LineAt(i, t), c.price[i + 1], b);
    if ComputeFee(q, m, fee).Success? {
      var r := ComputeFee(q, m, fee).value;
      var p := Mid(c.LineAt(i, t), c.LineAt(i, t + m));
      ChargedExact(q, m, fee, p, r);
      c.CostWithin(i, t, m, p);
    }
  }

  /** The price of an inverse quote is the mean of the present price and the one reached. */
  lemma RootPrice(q: QuoteType, g: real, f: real, cf: real, uf: real, v: real, b: real, sqrt: real -> real)
    requires IsSqrt(sqrt) && b > 0.0 && g == Price(IsMint(q), cf) && f == Price(IsMint(q), uf)
    requires 0.0 <= v <= b * Mid(g, f)
    ensures var s := sqrt(Radicand(g, f, b, v));
            && s >= 0.0 && s * s == Radicand(g, f, b, v)
            && Price(IsMint(q), MidFee(IsMint(q), false, cf, uf, v, b, sqrt)) == Mid(g, s)
  {
    MidFeeInverse(IsMint(q), cf, uf, v, b, sqrt);
  }

  /** The inverse quote of the last part is the amount whose area is the value given. */
  lemma RootCharged(q: QuoteType, c: Curve, i: nat, t: real, v: real, s: real, fee: real, g: real, f: real, b: real)
    requires c.Valid() && c.Holds(i, t) && i + 1 < |c.pos| && !IsExact(q)
    requires b == c.pos[i + 1] - t && g == c.LineAt(i, t) && f == c.price[i + 1]
    requires 0.0 <= v <= b * Mid(g, f) && s >= 0.0 && s * s == Radicand(g, f, b, v)
    requires Price(IsMint(q), fee) == Mid(g, s)
    ensures Chargeable(IsMint(q), g) && Chargeable(IsMint(q), f) ==> Chargeable(IsMint(q), Price(IsMint(q), fee))
    ensures ComputeFee(q, v, fee).Success? && Rises(q, Mid(g, s)) ==>
              var r := ComputeFee(q, v, fee).value; 0.0 <= r <= b && c.Cost(t, r) == v
  {
    var p := Price(IsMint(q), fee);
    if p > 0.0 {
      var m := Divide(v, p);
      RootOnSegment(c, i, t, v, s, m, g, f, b, p);
      QuotientCharged(q, v, fee, p, m);
    }
  }

  lemma QuotientCharged(q: QuoteType, v: real, fee: real, p: real, m: real)
    requires !IsExact(q) && p == Price(IsMint(q), fee) && p > 0.0 && m * p == v
    ensures ComputeFee(q, v, fee).Success? ==> ComputeFee(q, v, fee).value == m
  {
    if ComputeFee(q, v, fee).Success? {
      var r := ComputeFee(q, v, fee).value;
      ChargedInverse(q, v, fee, p, r);
      SameQuotient(r, m, p, v);
    }
  }

  lemma Divide(v: real, p: real) returns (m: real)
    requires p > 0.0
    ensures m * p == v
  {
    m := v / p;
  }

  lemma RootOnSegment(c: Curve, i: nat, t: real, v: real, s: real, m: real, g: real, f: real, b: real,
                      p: real)
    requires c.Valid() && c.Holds(i, t) && i + 1 < |c.pos| && p == Mid(g, s)
    requires b == c.pos[i + 1] - t && g == c.LineAt(i, t) && f == c.price[i + 1]
    requires 0.0 <= v <= b * Mid(g, f) && s >= 0.0 && s * s == Radicand(g, f, b, v)
    requires p > 0.0 && m * p == v
    ensures 0.0 <= m <= b && c.Cost(t, m) == v
    ensures g <= s <= f || f <= s <= g
  {
    InverseStep(g, f, b, v, s, m, p);
    AlongLine(c, i, t, m, g, f, b);
    c.CostWithin(i, t, m, p);
    c.LineBetween(i, t, t + m, if g < f then g else f, if g < f then f else g);
  }

  lemma SameQuotient(a: real, b: real, k: real, v: real)
    requires a * k == v && b * k == v && k > 0.0
    ensures a == b
  {
    ZeroFactor(a - b, k);
  }

  // ----- the whole quote -----

  /** What a quote means: an exact one is the area under the price over the amount moved, the
      other ones are the first amount to move for a given area. */
  ghost predicate IsQuote(c: Curve, t: real, isExact: bool, amount: real, r: real)
    requires c.Valid()
  {
    if isExact then r == c.Cost(t, amount)
    else r >= 0.0 && c.Cost(t, r) == amount && c.ReachedFirst(t, amount, r)
  }

  /** The area and the lines of a curve as functions, so that the loop can speak of them without
      their definitions. */
  datatype View = View(area: real -> real, line: (nat, real) -> real)

  ghost predicate Shows(v: View, c: Curve)
    requires c.Valid()
  {
    && v.area == c.AreaFunction()
    && (forall i: nat, t {:trigger c.LineAt(i, t)} | i < |c.pos| :: v.line(i, t) == c.LineAt(i, t))
  }

  ghost function ViewOf(c: Curve): (v: View)
    requires c.Valid()
    ensures Shows(v, c)
  {
    View(c.AreaFunction(), (i: nat, t: real) => if i < |c.pos| then c.LineAt(i, t) else 0.0)
  }

  ghost predicate QuoteIn(v: View, t: real, isExact: bool, amount: real, r: real) {
    if isExact then r == v.area(t + amount) - v.area(t) else r >= 0.0 && v.area(t + r) - v.area(t) == amount
  }

  /** The area up to every breakpoint passed, from `start` to `i`, is less than the whole of it. */
  ghost predicate Passed(c: Curve, v: View, start: nat, i: nat, t0: real, total: real)
    requires c.Valid()
  {
    forall k: nat | start < k <= i && k < |c.pos| :: v.area(c.pos[k]) - v.area(t0) < total
  }

  ghost predicate FirstIn(c: Curve, v: View, start: nat, t0: real, total: real, r: real)
    requires c.Valid()
  {
    forall k: nat | start < k < |c.pos| && c.pos[k] < t0 + r :: v.area(c.pos[k]) - v.area(t0) < total
  }

  ghost predicate SoFar(v: View, t0: real, t: real, isExact: bool, total: real, rest: real, amount: real) {
    && t0 <= t && rest >= 0.0
    && if isExact then amount == v.area(t) - v.area(t0) && rest + (t - t0) == total
       else amount == t - t0 && rest + (v.area(t) - v.area(t0)) == total
  }

  /** The present price and those of the breakpoints ahead can all be charged. */
  ghost predicate AllChargeable(isMint: bool, c: Curve, t: real)
    requires c.Valid()
  {
    && Chargeable(isMint, c.PriceFunction()(t))
    && forall i | c.Segment(t) < i < |c.price| :: Chargeable(isMint, c.price[i])
  }

  /** None of them can. */
  ghost predicate NoneChargeable(isMint: bool, c: Curve, t: real)
    requires c.Valid()
  {
    && !Chargeable(isMint, c.PriceFunction()(t))
    && forall i | c.Segment(t) < i < |c.price| :: !Chargeable(isMint, c.price[i])
  }

  // ----- which quotes are refused -----

  /** How much of a quote segment `i` takes from position `t`: an amount, or the area over it. */
  ghost function Room(isExact: bool, c: Curve, v: View, i: nat, t: real): real
    requires c.Valid() && i + 1 < |c.pos|
  {
    if isExact then c.pos[i + 1] - t else v.area(c.pos[i + 1]) - v.area(t)
  }

  /** The price reached where the quote ends inside segment `i`. */
  ghost function PriceReached(isExact: bool, c: Curve, v: View, sqrt: real -> real, i: nat, t: real, now: real,
                              rest: real): real
    requires c.Valid() && i + 1 < |c.pos| && t < c.pos[i + 1]
  {
    if isExact then v.line(i, t + rest) else sqrt(Radicand(now, c.price[i + 1], c.pos[i + 1] - t, rest))
  }

  /** The mean prices charged in segment `i`: over all of it, unless an exact quote ends inside, and
      over the part that is used when the quote ends inside. */
  ghost predicate Charges(q: QuoteType, c: Curve, v: View, sqrt: real -> real, i: nat, t: real, now: real, rest: real)
    requires c.Valid() && i + 1 < |c.pos| && t < c.pos[i + 1]
  {
    var ends := rest <= Room(IsExact(q), c, v, i, t);
    && ((IsExact(q) && ends) || Chargeable(IsMint(q), Mid(now, c.price[i + 1])))
    && (ends ==> Chargeable(IsMint(q), Mid(now, PriceReached(IsExact(q), c, v, sqrt, i, t, now, rest))))
  }

  /** Every mean price charged on the way can be charged: over the segments walked, from the one
      that holds the start, and the last price when the quote goes beyond the last breakpoint. */
  ghost predicate Accepted(q: QuoteType, c: Curve, v: View, sqrt: real -> real, i: nat, t: real, now: real, rest: real)
    requires c.Valid() && i < |c.pos| && (i + 1 < |c.pos| ==> t < c.pos[i + 1])
    decreases |c.pos| - i
  {
    if i + 1 == |c.pos| then Chargeable(IsMint(q), c.price[i])
    else
      var room := Room(IsExact(q), c, v, i, t);
      && Charges(q, c, v, sqrt, i, t, now, rest)
      && (rest > room ==> Accepted(q, c, v, sqrt, i + 1, c.pos[i + 1], c.price[i + 1], rest - room))
  }

  /** The price charged last: the mean from where the last segment walked is entered to where the
      quote ends, or the last price of all. */
  ghost function EndPrice(q: QuoteType, c: Curve, v: View, sqrt: real -> real, i: nat, t: real, now: real, rest: real)
    : real
    requires c.Valid() && i < |c.pos| && (i + 1 < |c.pos| ==> t < c.pos[i + 1])
    decreases |c.pos| - i
  {
    if i + 1 == |c.pos| then c.price[i]
    else
      var room := Room(IsExact(q), c, v, i, t);
      if rest <= room then Mid(now, PriceReached(IsExact(q), c, v, sqrt, i, t, now, rest))
      else EndPrice(q, c, v, sqrt, i + 1, c.pos[i + 1], c.price[i + 1], rest - room)
  }

  lemma EndPriceStep(q: QuoteType, c: Curve, v: View, sqrt: real -> real, i: nat, t: real, now: real, rest: real)
    requires c.Valid() && i + 1 < |c.pos| && t < c.pos[i + 1]
    ensures var room := Room(IsExact(q), c, v, i, t);
            EndPrice(q, c, v, sqrt, i, t, now, rest) ==
            if rest > room then EndPrice(q, c, v, sqrt, i + 1, c.pos[i + 1], c.price[i + 1], rest - room)
            else Mid(now, PriceReached(IsExact(q), c, v, sqrt, i, t, now, rest))
  {
  }

  lemma AcceptedStep(q: QuoteType, c: Curve, v: View, sqrt: real -> real, i: nat, t: real, now: real, rest: real)
    requires c.Valid() && i + 1 < |c.pos| && t < c.pos[i + 1]
    ensures var room := Room(IsExact(q), c, v, i, t);
            Accepted(q, c, v, sqrt, i, t, now, rest) ==
            if Charges(q, c, v, sqrt, i, t, now, rest) && rest > room
            then Accepted(q, c, v, sqrt, i + 1, c.pos[i + 1], c.price[i + 1], rest - room)
            else Charges(q, c, v, sqrt, i, t, now, rest)
  {
  }

  /** The condition of a whole quote. */
  ghost predicate IsAccepted(q: QuoteType, c: Curve, sqrt: real -> real, t: real, amount: real)
    requires c.Valid()
  {
    Accepted(q, c, ViewOf(c), sqrt, c.Segment(t), t, c.PriceAt(t), amount)
  }

  /** The last price of a whole quote. */
  ghost function LastPriceOf(q: QuoteType, c: Curve, sqrt: real -> real, t: real, amount: real): real
    requires c.Valid()
  {
    EndPrice(q, c, ViewOf(c), sqrt, c.Segment(t), t, c.PriceAt(t), amount)
  }

  // Both as function values of the start and the amount: the quotes need not look inside.

  ghost function Acceptance(q: QuoteType, c: Curve, sqrt: real -> real): (f: (real, real) -> bool)
    requires c.Valid()
    ensures forall t, amount {:trigger IsAccepted(q, c, sqrt, t, amount)} ::
              f(t, amount) == IsAccepted(q, c, sqrt, t, amount)
  {
    AcceptanceExists(q, c, sqrt);
    var f: (real, real) -> bool :|
      forall t, amount {:trigger IsAccepted(q, c, sqrt, t, amount)} ::
        f(t, amount) == IsAccepted(q, c, sqrt, t, amount);
    f
  }

  lemma AcceptanceExists(q: QuoteType, c: Curve, sqrt: real -> real)
    requires c.Valid()
    ensures exists f: (real, real) -> bool {:trigger f(0.0, 0.0)} ::
              forall t, amount {:trigger IsAccepted(q, c, sqrt, t, amount)} ::
                f(t, amount) == IsAccepted(q, c, sqrt, t, amount)
  {
    var f := (t: real, amount: real) => IsAccepted(q, c, sqrt, t, amount);
    assert f(0.0, 0.0) == IsAccepted(q, c, sqrt, 0.0, 0.0);
  }

  ghost function LastPrice(q: QuoteType, c: Curve, sqrt: real -> real): (f: (real, real) -> real)
    requires c.Valid()
    ensures forall t, amount {:trigger LastPriceOf(q, c, sqrt, t, amount)} ::
              f(t, amount) == LastPriceOf(q, c, sqrt, t, amount)
  {
    LastPriceExists(q, c, sqrt);
    var f: (real, real) -> real :|
      forall t, amount {:trigger LastPriceOf(q, c, sqrt, t, amount)} ::
        f(t, amount) == LastPriceOf(q, c, sqrt, t, amount);
    f
  }

  lemma LastPriceExists(q: QuoteType, c: Curve, sqrt: real -> real)
    requires c.Valid()
    ensures exists f: (real, real) -> real {:trigger f(0.0, 0.0)} ::
              forall t, amount {:trigger LastPriceOf(q, c, sqrt, t, amount)} ::
                f(t, amount) == LastPriceOf(q, c, sqrt, t, amount)
  {
    var f := (t: real, amount: real) => LastPriceOf(q, c, sqrt, t, amount);
    assert f(0.0, 0.0) == LastPriceOf(q, c, sqrt, 0.0, 0.0);
  }

  lemma MidRootChargeable(q: QuoteType, c: Curve, i: nat, t: real, v: real, s: real, g: real, f: real, b: real)
    requires c.Valid() && c.Holds(i, t) && i + 1 < |c.pos| && !IsExact(q)
    requires b == c.pos[i + 1] - t && g == c.LineAt(i, t) && f == c.price[i + 1]
    requires 0.0 <= v <= b * Mid(g, f) && s >= 0.0 && s * s == Radicand(g, f, b, v)
    ensures Chargeable(IsMint(q), g) && Chargeable(IsMint(q), f) ==> Chargeable(IsMint(q), Mid(g, s))
  {
    var fee := if IsMint(q) then Mid(g, s) - BASE_9 else BASE_9 - Mid(g, s);
    RootCharged(q, c, i, t, v, s, fee, g, f, b);
  }

  /** Where the quote ends inside a segment, chargeable ends make a chargeable mean. */
  lemma EndCharged(q: QuoteType, c: Curve, v: View, sqrt: real -> real, i: nat, t: real, now: real, rest: real)
    requires c.Valid() && Shows(v, c) && c.Holds(i, t) && i + 1 < |c.pos| && IsSqrt(sqrt)
    requires now == v.line(i, t) && 0.0 <= rest <= Room(IsExact(q), c, v, i, t)
    requires Chargeable(IsMint(q), now) && Chargeable(IsMint(q), c.price[i + 1])
    ensures Chargeable(IsMint(q), Mid(now, PriceReached(IsExact(q), c, v, sqrt, i, t, now, rest)))
  {
    assert now == c.LineAt(i, t);
    if IsExact(q) {
      MidChargeable(IsMint(q), c, i, t, rest);
      assert v.line(i, t + rest) == c.LineAt(i, t + rest);
    } else {
      var f, b := c.price[i + 1], c.pos[i + 1] - t;
      SegmentArea(c, i, t, b, Mid(now, f));
      assert t + b == c.pos[i + 1];
      RadicandNonNegative(now, f, b, rest);
      MidRootChargeable(q, c, i, t, rest, sqrt(Radicand(now, f, b, rest)), now, f, b);
    }
  }

  lemma {:induction false} AllAccepted(q: QuoteType, c: Curve, v: View, sqrt: real -> real, i: nat, t: real, now: real,
                                       rest: real)
    requires c.Valid() && Shows(v, c) && c.Holds(i, t) && IsSqrt(sqrt) && rest >= 0.0 && now == v.line(i, t)
    requires Chargeable(IsMint(q), now) && forall k | i < k < |c.price| :: Chargeable(IsMint(q), c.price[k])
    ensures Accepted(q, c, v, sqrt, i, t, now, rest)
    decreases |c.pos| - i
  {
    if i + 1 == |c.pos| {
      assert now == c.LineAt(i, t);
    } else {
      var room := Room(IsExact(q), c, v, i, t);
      if rest <= room {
        EndCharged(q, c, v, sqrt, i, t, now, rest);
      } else {
        NextStart(c, v, i);
        AllAccepted(q, c, v, sqrt, i + 1, c.pos[i + 1], c.price[i + 1], rest - room);
      }
    }
  }

  lemma NoneAccepted(q: QuoteType, c: Curve, v: View, sqrt: real -> real, i: nat, t: real, now: real, rest: real)
    requires c.Valid() && Shows(v, c) && c.Holds(i, t) && rest >= 0.0 && now == v.line(i, t)
    requires !Chargeable(IsMint(q), now) && forall k | i < k < |c.price| :: !Chargeable(IsMint(q), c.price[k])
    ensures !Accepted(q, c, v, sqrt, i, t, now, rest)
  {
    assert now == c.LineAt(i, t);
    if i + 1 < |c.pos| && IsExact(q) && rest <= Room(true, c, v, i, t) {
      MidChargeable(IsMint(q), c, i, t, rest);
      assert v.line(i, t + rest) == c.LineAt(i, t + rest);
    }
  }

  function XFees(fees: Fees, q: QuoteType): seq<real> {
    if IsMint(q) then fees.xFeeMint else fees.xFeeBurn
  }

  function YFees(fees: Fees, q: QuoteType): seq<real> {
    if IsMint(q) then fees.yFeeMint else fees.yFeeBurn
  }

  ghost function QuoteCurve(fees: Fees, q: QuoteType, other: real): (c: Curve)
    requires ValidTable(IsMint(q), XFees(fees, q), YFees(fees, q)) && other > 0.0
    ensures c.Valid() && |c.pos| == |XFees(fees, q)|
  {
    CurveOf(IsMint(q), XFees(fees, q), YFees(fees, q), other)
  }

  /** The breakpoint found from the exposure is where the walk may start. */
  lemma WalkStarts(isMint: bool, x: seq<real>, y: seq<real>, other: real, issued: real, i: nat, c: Curve, t: real)
    requires ValidTable(isMint, x, y) && other > 0.0 && other + issued > 0.0 && i < |x|
    requires forall k | 0 < k < |x| :: Reached(isMint, x[k], issued * BASE_9 / (other + issued)) <==> k <= i
    requires c == CurveOf(isMint, x, y, other) && t == Position(isMint, issued)
    ensures c.Holds(i, t) && i == c.Segment(t) && c.PriceAt(t) == c.LineAt(i, t)
    ensures c.price[|c.pos| - 1] == Price(isMint, y[|y| - 1])
    ensures issued * BASE_9 / (other + issued) < BASE_9
    ensures issued * BASE_9 / (other + issued) == x[i] ==> t == c.pos[i]
  {
    StartSegment(isMint, x, y, other, issued, i);
    ExposureOf(other, issued);
    c.SegmentUnique(i, t);
  }

  method QuoteFees(fees: Fees, quoteType: QuoteType, amountStable: real, stablecoinsIssued: real,
                   otherStablecoinSupply: real, sqrt: real -> real)
    returns (r: Result<real, SwapError>)
    requires IsSqrt(sqrt) && amountStable >= 0.0
    requires otherStablecoinSupply > 0.0 && otherStablecoinSupply + stablecoinsIssued > 0.0
    requires ValidTable(IsMint(quoteType), XFees(fees, quoteType), YFees(fees, quoteType))
    ensures var c := QuoteCurve(fees, quoteType, otherStablecoinSupply);
            var t := Position(IsMint(quoteType), stablecoinsIssued);
            && Quoted(quoteType, c, sqrt, t, amountStable, r)
            && (AllChargeable(IsMint(quoteType), c, t) ==> r != Failure(InvalidSwap))
            && (NoneChargeable(IsMint(quoteType), c, t) ==> r == Failure(InvalidSwap))
            && PastLast(quoteType, c)(t, amountStable, r)
  {
    var isMint := IsMint(quoteType);
    var xs, ys := XFees(fees, quoteType), YFees(fees, quoteType);
    var currentExposure := stablecoinsIssued * BASE_9 / (otherStablecoinSupply + stablecoinsIssued);
    var i := FindLowerBound(isMint, xs, BASE_9, currentExposure);
    ghost var c, t := QuoteCurve(fees, quoteType, otherStablecoinSupply), Position(isMint, stablecoinsIssued);
    WalkStarts(isMint, xs, ys, otherStablecoinSupply, stablecoinsIssued, i, c, t);
    r := WalkSegments(quoteType, xs, ys, i, currentExposure, amountStable, stablecoinsIssued, otherStablecoinSupply,
                      sqrt, c, ViewOf(c), t);
    QuotedFrom(quoteType, c, ViewOf(c), sqrt, t, i, amountStable, r, ys[|ys| - 1]);
  }

  /** From the last breakpoint on, one price is charged on everything. */
  ghost predicate IsPastLast(q: QuoteType, c: Curve, t: real, amount: real, r: Result<real, SwapError>)
    requires c.Valid()
  {
    c.Segment(t) + 1 == |c.pos| ==>
      var price := c.price[|c.pos| - 1];
      r == ComputeFee(q, amount, if IsMint(q) then price - BASE_9 else BASE_9 - price)
  }

  ghost function PastLast(q: QuoteType, c: Curve): (f: (real, real, Result<real, SwapError>) -> bool)
    requires c.Valid()
    ensures forall t, amount, r {:trigger IsPastLast(q, c, t, amount, r)} ::
              f(t, amount, r) == IsPastLast(q, c, t, amount, r)
  {
    PastLastExists(q, c);
    var f: (real, real, Result<real, SwapError>) -> bool :|
      forall t, amount, r {:trigger IsPastLast(q, c, t, amount, r)} ::
        f(t, amount, r) == IsPastLast(q, c, t, amount, r);
    f
  }

  lemma PastLastFrom(q: QuoteType, c: Curve, t: real, i: nat, amount: real, r: Result<real, SwapError>, fee: real)
    requires c.Valid() && i == c.Segment(t) && c.price[|c.pos| - 1] == Price(IsMint(q), fee)
    requires i + 1 == |c.pos| ==> r == ComputeFee(q, amount, fee)
    ensures PastLast(q, c)(t, amount, r)
  {
    assert IsPastLast(q, c, t, amount, r);
  }

  lemma PastLastExists(q: QuoteType, c: Curve)
    requires c.Valid()
    ensures exists f: (real, real, Result<real, SwapError>) -> bool {:trigger f(0.0, 0.0, Success(0.0))} ::
              forall t, amount, r {:trigger IsPastLast(q, c, t, amount, r)} ::
                f(t, amount, r) == IsPastLast(q, c, t, amount, r)
  {
    var f := (t: real, amount: real, r: Result<real, SwapError>) => IsPastLast(q, c, t, amount, r);
    assert f(0.0, 0.0, Success(0.0)) == IsPastLast(q, c, 0.0, 0.0, Success(0.0));
  }

  /** What is said of a quote: it means what it should unless the price it divides by is negative,
      and it is refused exactly when a price on its way is. */
  ghost predicate Quoted(q: QuoteType, c: Curve, sqrt: real -> real, t: real, amount: real,
                         r: Result<real, SwapError>)
    requires c.Valid()
  {
    var price, accepted := LastPrice(q, c, sqrt)(t, amount), Acceptance(q, c, sqrt)(t, amount);
    && (r.Success? && Rises(q, price) ==> IsQuote(c, t, IsExact(q), amount, r.value))
    && (r.Success? <==> accepted && Divides(q, price))
    && (r == Failure(InvalidSwap) <==> !accepted)
  }

  lemma QuotedFrom(q: QuoteType, c: Curve, v: View, sqrt: real -> real, t: real, i: nat, amount: real,
                   r: Result<real, SwapError>, fee: real)
    requires c.Valid() && IsSqrt(sqrt) && amount >= 0.0 && i == c.Segment(t) && v == ViewOf(c)
    requires var now := v.line(i, t);
             var accepted := Accepted(q, c, v, sqrt, i, t, now, amount);
             var price := EndPrice(q, c, v, sqrt, i, t, now, amount);
             && Answers(q, v, t, amount, accepted, price, r)
             && (r.Success? && Rises(q, price) && !IsExact(q) ==> FirstIn(c, v, i, t, amount, r.value))
    requires c.price[|c.pos| - 1] == Price(IsMint(q), fee) && (i + 1 == |c.pos| ==> r == ComputeFee(q, amount, fee))
    ensures PastLast(q, c)(t, amount, r)
    ensures Quoted(q, c, sqrt, t, amount, r)
    ensures AllChargeable(IsMint(q), c, t) ==> r != Failure(InvalidSwap)
    ensures NoneChargeable(IsMint(q), c, t) ==> r == Failure(InvalidSwap)
  {
    AcceptedWhen(q, c, sqrt, t, i, amount);
    PastLastFrom(q, c, t, i, amount, r, fee);
    if r.Success? && Rises(q, LastPriceOf(q, c, sqrt, t, amount)) {
      IsQuoteFrom(c, v, t, i, IsExact(q), amount, r.value);
    }
  }

  lemma IsQuoteFrom(c: Curve, v: View, t: real, i: nat, isExact: bool, amount: real, r: real)
    requires c.Valid() && i == c.Segment(t) && v == ViewOf(c) && QuoteIn(v, t, isExact, amount, r)
    requires !isExact ==> FirstIn(c, v, i, t, amount, r)
    ensures IsQuote(c, t, isExact, amount, r)
  {
    forall k: nat | i < k < |c.pos|
      ensures c.Cost(t, c.pos[k] - t) == v.area(c.pos[k]) - v.area(t)
    {
      assert t + (c.pos[k] - t) == c.pos[k];
    }
  }

  lemma AcceptedWhen(q: QuoteType, c: Curve, sqrt: real -> real, t: real, i: nat, amount: real)
    requires c.Valid() && IsSqrt(sqrt) && amount >= 0.0 && i == c.Segment(t)
    ensures var now := ViewOf(c).line(i, t);
            && (IsAccepted(q, c, sqrt, t, amount) <==> Accepted(q, c, ViewOf(c), sqrt, i, t, now, amount))
            && LastPriceOf(q, c, sqrt, t, amount) == EndPrice(q, c, ViewOf(c), sqrt, i, t, now, amount)
    ensures AllChargeable(IsMint(q), c, t) ==> IsAccepted(q, c, sqrt, t, amount)
    ensures NoneChargeable(IsMint(q), c, t) ==> !IsAccepted(q, c, sqrt, t, amount)
  {
    var v := ViewOf(c);
    assert c.PriceAt(t) == c.LineAt(i, t) == v.line(i, t);
    if AllChargeable(IsMint(q), c, t) {
      AllAccepted(q, c, v, sqrt, i, t, v.line(i, t), amount);
    }
    if NoneChargeable(IsMint(q), c, t) {
      NoneAccepted(q, c, v, sqrt, i, t, v.line(i, t), amount);
    }
  }

  /** The loop over breakpoints, from the segment found; the ghost arguments are the curve and
      the position where the quote starts. */
  method WalkSegments(quoteType: QuoteType, xs: seq<real>, ys: seq<real>, start: nat, exposure: real,
                      amountStable0: real, stablecoinsIssued0: real, other: real, sqrt: real -> real,
                      ghost c: Curve, ghost v: View, ghost t0: real)
    returns (r: Result<real, SwapError>)
    requires IsSqrt(sqrt) && amountStable0 >= 0.0 && other > 0.0 && exposure < 1.0
    requires ValidTable(IsMint(quoteType), xs, ys) && Draws(c, IsMint(quoteType), xs, ys, other) && Shows(v, c)
    requires t0 == Position(IsMint(quoteType), stablecoinsIssued0) && c.Holds(start, t0)
    requires exposure == xs[start] ==> t0 == c.pos[start]
    ensures var now := v.line(start, t0);
            var accepted := Accepted(quoteType, c, v, sqrt, start, t0, now, amountStable0);
            var price := EndPrice(quoteType, c, v, sqrt, start, t0, now, amountStable0);
            && Answers(quoteType, v, t0, amountStable0, accepted, price, r)
            && (r.Success? && Rises(quoteType, price) && !IsExact(quoteType) ==>
                  FirstIn(c, v, start, t0, amountStable0, r.value))
    ensures start + 1 == |xs| ==> r == ComputeFee(quoteType, amountStable0, ys[start])
  {
    var isMint, isExact := IsMint(quoteType), IsExact(quoteType);
    var n := |xs|;
    var amountStable, stablecoinsIssued, currentExposure := amountStable0, stablecoinsIssued0, exposure;
    var amount, i := 0.0, start;
    ghost var t, now := t0, v.line(i, t0);
    ghost var accepted := Accepted(quoteType, c, v, sqrt, start, t0, now, amountStable0);
    ghost var price := EndPrice(quoteType, c, v, sqrt, start, t0, now, amountStable0);
    while i < n - 1
      invariant start <= i < n && c.Holds(i, t) && t == Position(isMint, stablecoinsIssued) && now == v.line(i, t)
      invariant SoFar(v, t0, t, isExact, amountStable0, amountStable, amount)
      invariant start == n - 1 ==> amount == 0.0 && amountStable == amountStable0
      invariant currentExposure < 1.0 && (currentExposure == xs[i] ==> t == c.pos[i])
      invariant Ahead(quoteType, c, v, sqrt, start, i, t0, t, now, amountStable0, amountStable, accepted, price)
    {
      var step, amountToNext := Pass(quoteType, xs, ys, i, currentExposure, amountStable, amount, stablecoinsIssued,
                                     other, sqrt, c, v, start, t0, t, now, amountStable0, accepted, price);
      match step {
        case Done(result) => return result;
        case Next(rest, soFar) => amountStable, amount := rest, soFar;
      }
      currentExposure := xs[i + 1] * BASE_9;
      i := i + 1;
      stablecoinsIssued := if isMint then stablecoinsIssued + amountToNext else stablecoinsIssued - amountToNext;
      t, now := c.pos[i], c.price[i];
    }
    r := BeyondLast(quoteType, amountStable, amount, ys[n - 1], c, v, i, t0, t, now, amountStable0);
    AnsweredLast(quoteType, c, v, sqrt, start, i, t0, t, now, amountStable0, amountStable, accepted, price, r);
  }

  /** One pass of the loop. */
  method Pass(q: QuoteType, xs: seq<real>, ys: seq<real>, i: nat, currentExposure: real, amountStable: real,
              amount: real, stablecoinsIssued: real, other: real, sqrt: real -> real,
              ghost c: Curve, ghost v: View, ghost start: nat, ghost t0: real, ghost t: real, ghost now: real,
              ghost total: real, ghost accepted: bool, ghost price: real)
    returns (step: SegmentStep, amountToNext: real)
    requires IsSqrt(sqrt) && other > 0.0 && ValidTable(IsMint(q), xs, ys)
    requires Draws(c, IsMint(q), xs, ys, other) && Shows(v, c) && i + 1 < |xs| && c.Holds(i, t)
    requires t == Position(IsMint(q), stablecoinsIssued) && now == v.line(i, t)
    requires currentExposure < 1.0 && (currentExposure == xs[i] ==> t == c.pos[i])
    requires SoFar(v, t0, t, IsExact(q), total, amountStable, amount)
    requires Ahead(q, c, v, sqrt, start, i, t0, t, now, total, amountStable, accepted, price)
    ensures Position(IsMint(q), if IsMint(q) then stablecoinsIssued + amountToNext
                                else stablecoinsIssued - amountToNext) == c.pos[i + 1]
    ensures c.Holds(i + 1, c.pos[i + 1]) && v.line(i + 1, c.pos[i + 1]) == c.price[i + 1]
    ensures step.Next? ==>
              && SoFar(v, t0, c.pos[i + 1], IsExact(q), total, step.amountStable, step.amount)
              && Ahead(q, c, v, sqrt, start, i + 1, t0, c.pos[i + 1], c.price[i + 1], total, step.amountStable,
                       accepted, price)
    ensures step.Done? ==>
              && Answers(q, v, t0, total, accepted, price, step.result)
              && (step.result.Success? && Rises(q, price) && !IsExact(q) ==>
                    FirstIn(c, v, start, t0, total, step.result.value))
  {
    var currentFees;
    amountToNext, currentFees := Measure(IsMint(q), xs, ys, i, currentExposure, stablecoinsIssued, other, c, v, t, now);
    step := OneSegment(q, currentFees, ys[i + 1], amountStable, amount, amountToNext, sqrt, c, v, i, t0, t, now, total);
    NextStart(c, v, i);
    if step.Done? {
      AnsweredHere(q, c, v, sqrt, start, i, t0, t, now, total, amountStable, accepted, price, step.result);
    } else {
      StillAhead(q, c, v, sqrt, start, i, t0, t, now, total, amountStable, step.amountStable, accepted, price);
    }
  }

  /** What is left of a quote at `t`, in segment `i`, decides whether it is accepted and its last
      price; no breakpoint passed was enough. */
  ghost predicate Ahead(q: QuoteType, c: Curve, v: View, sqrt: real -> real, start: nat, i: nat, t0: real, t: real,
                        now: real, total: real, rest: real, accepted: bool, price: real)
    requires c.Valid() && c.Holds(i, t)
  {
    && accepted == Accepted(q, c, v, sqrt, i, t, now, rest)
    && price == EndPrice(q, c, v, sqrt, i, t, now, rest)
    && (!IsExact(q) ==> Passed(c, v, start, i, t0, total))
  }

  lemma StillAhead(q: QuoteType, c: Curve, v: View, sqrt: real -> real, start: nat, i: nat, t0: real, t: real,
                   now: real, total: real, rest: real, left: real, accepted: bool, price: real)
    requires c.Valid() && Shows(v, c) && c.Holds(i, t) && i + 1 < |c.pos|
    requires rest > Room(IsExact(q), c, v, i, t) && left == rest - Room(IsExact(q), c, v, i, t)
    requires !IsExact(q) ==> rest + (v.area(t) - v.area(t0)) == total
    requires Charges(q, c, v, sqrt, i, t, now, rest)
    requires Ahead(q, c, v, sqrt, start, i, t0, t, now, total, rest, accepted, price)
    ensures c.Holds(i + 1, c.pos[i + 1]) && v.line(i + 1, c.pos[i + 1]) == c.price[i + 1]
    ensures Ahead(q, c, v, sqrt, start, i + 1, t0, c.pos[i + 1], c.price[i + 1], total, left, accepted, price)
  {
    NextStart(c, v, i);
    AcceptedStep(q, c, v, sqrt, i, t, now, rest);
    EndPriceStep(q, c, v, sqrt, i, t, now, rest);
  }

  lemma AnsweredHere(q: QuoteType, c: Curve, v: View, sqrt: real -> real, start: nat, i: nat, t0: real, t: real,
                     now: real, total: real, rest: real, accepted: bool, price: real, r: Result<real, SwapError>)
    requires c.Valid() && c.Holds(i, t) && i + 1 < |c.pos|
    requires Ahead(q, c, v, sqrt, start, i, t0, t, now, total, rest, accepted, price)
    requires EndsHere(q, c, v, sqrt, i, t0, t, now, total, rest, r)
    ensures Answers(q, v, t0, total, accepted, price, r)
    ensures r.Success? && Rises(q, price) && !IsExact(q) ==> FirstIn(c, v, start, t0, total, r.value)
  {
    AcceptedStep(q, c, v, sqrt, i, t, now, rest);
    EndPriceStep(q, c, v, sqrt, i, t, now, rest);
  }

  lemma AnsweredLast(q: QuoteType, c: Curve, v: View, sqrt: real -> real, start: nat, i: nat, t0: real, t: real,
                     now: real, total: real, rest: real, accepted: bool, price: real, r: Result<real, SwapError>)
    requires c.Valid() && c.Holds(i, t) && i + 1 == |c.pos|
    requires Ahead(q, c, v, sqrt, start, i, t0, t, now, total, rest, accepted, price)
    requires Answers(q, v, t0, total, Chargeable(IsMint(q), c.price[i]), c.price[i], r)
    ensures Answers(q, v, t0, total, accepted, price, r)
    ensures r.Success? && Rises(q, price) && !IsExact(q) ==> FirstIn(c, v, start, t0, total, r.value)
  {
  }

  /** The return after the loop. */
  method BeyondLast(q: QuoteType, amountStable: real, amount: real, fee: real, ghost c: Curve, ghost v: View,
                    ghost i: nat, ghost t0: real, ghost t: real, ghost now: real, ghost total: real)
    returns (r: Result<real, SwapError>)
    requires c.Valid() && Shows(v, c) && c.Holds(i, t) && i + 1 == |c.pos|
    requires Price(IsMint(q), fee) == c.price[i] && now == v.line(i, t)
    requires SoFar(v, t0, t, IsExact(q), total, amountStable, amount)
    ensures Answers(q, v, t0, total, Chargeable(IsMint(q), c.price[i]), c.price[i], r)
    ensures amount == 0.0 ==> r == ComputeFee(q, amountStable, fee)
  {
    var last := LastSegment(q, amountStable, fee, c, v, i, t, now);
    if last.Failure? {
      return last;
    }
    if Rises(q, c.price[i]) {
      Finish(v, t0, t, IsExact(q), total, amountStable, amount, last.value);
    }
    return Success(amount + last.value);
  }

  /** The answer of a quote: refused, a division by zero, or what it should be. */
  ghost predicate Answers(q: QuoteType, v: View, t0: real, total: real, accepted: bool, price: real,
                          r: Result<real, SwapError>)
  {
    && (r == Failure(InvalidSwap) <==> !accepted)
    && (r.Success? <==> accepted && Divides(q, price))
    && (r.Success? && Rises(q, price) ==> QuoteIn(v, t0, IsExact(q), total, r.value))
  }

  /** A quote that ends in segment `i`, entered at `t`. */
  ghost predicate EndsHere(q: QuoteType, c: Curve, v: View, sqrt: real -> real, i: nat, t0: real, t: real, now: real,
                           total: real, rest: real, r: Result<real, SwapError>)
    requires c.Valid() && i + 1 < |c.pos| && t < c.pos[i + 1]
  {
    var charges := Charges(q, c, v, sqrt, i, t, now, rest);
    var price := Mid(now, PriceReached(IsExact(q), c, v, sqrt, i, t, now, rest));
    && (charges ==> rest <= Room(IsExact(q), c, v, i, t))
    && Answers(q, v, t0, total, charges, price, r)
    && (r.Success? && Rises(q, price) && !IsExact(q) ==> t0 + r.value <= c.pos[i + 1])
  }

  datatype SegmentStep = Done(result: Result<real, SwapError>) | Next(amountStable: real, amount: real)

  /** The body of the loop: either the quote ends in this segment, or the segment is used up. */
  method OneSegment(quoteType: QuoteType, currentFees: real, upperFees: real, amountStable: real, amount: real,
                    amountToNext: real, sqrt: real -> real,
                    ghost c: Curve, ghost v: View, ghost i: nat, ghost t0: real, ghost t: real, ghost now: real,
                    ghost total: real)
    returns (step: SegmentStep)
    requires IsSqrt(sqrt) && c.Valid() && Shows(v, c) && c.Holds(i, t) && i + 1 < |c.pos|
    requires amountToNext == c.pos[i + 1] - t && now == v.line(i, t)
    requires Price(IsMint(quoteType), currentFees) == now && Price(IsMint(quoteType), upperFees) == c.price[i + 1]
    requires SoFar(v, t0, t, IsExact(quoteType), total, amountStable, amount)
    ensures var room := Room(IsExact(quoteType), c, v, i, t);
            step.Next? ==> Charges(quoteType, c, v, sqrt, i, t, now, amountStable)
                           && room < amountStable && step.amountStable == amountStable - room
                           && SoFar(v, t0, c.pos[i + 1], IsExact(quoteType), total, step.amountStable, step.amount)
    ensures step.Done? ==> EndsHere(quoteType, c, v, sqrt, i, t0, t, now, total, amountStable, step.result)
  {
    var isMint, isExact := IsMint(quoteType), IsExact(quoteType);
    var normalizer := amountToNext;
    if !isExact {
      var worth := SegmentValue(isMint, amountToNext, upperFees, currentFees, c, v, i, t, now);
      if worth.Failure? {
        return Done(worth);
      }
      normalizer := worth.value;
    }
    if normalizer >= amountStable {
      var last := LastPart(quoteType, currentFees, upperFees, amountStable, amountToNext, sqrt, c, v, i, t, now);
      var result := if last.Failure? then last else Success(amount + last.value);
      FinishHere(quoteType, c, v, sqrt, i, t0, t, now, total, amountStable, amount, last, result);
      return Done(result);
    }
    if !isExact {
      return Next(amountStable - normalizer, amount + amountToNext);
    }
    var cost := SegmentValue(isMint, amountToNext, upperFees, currentFees, c, v, i, t, now);
    if cost.Failure? {
      return Done(cost);
    }
    return Next(amountStable - normalizer, amount + cost.value);
  }

  /** The last part ends the whole quote. */
  lemma FinishHere(q: QuoteType, c: Curve, v: View, sqrt: real -> real, i: nat, t0: real, t: real, now: real,
                   total: real, rest: real, amount: real, last: Result<real, SwapError>, r: Result<real, SwapError>)
    requires c.Valid() && i + 1 < |c.pos| && t < c.pos[i + 1] && rest <= Room(IsExact(q), c, v, i, t)
    requires SoFar(v, t0, t, IsExact(q), total, rest, amount)
    requires IsExact(q) || Chargeable(IsMint(q), Mid(now, c.price[i + 1]))
    requires r == if last.Failure? then last else Success(amount + last.value)
    requires var price := Mid(now, PriceReached(IsExact(q), c, v, sqrt, i, t, now, rest));
             && Answers(q, v, t, rest, Chargeable(IsMint(q), price), price, last)
             && (last.Success? && Rises(q, price) && !IsExact(q) ==> t + last.value <= c.pos[i + 1])
    ensures EndsHere(q, c, v, sqrt, i, t0, t, now, total, rest, r)
  {
    if last.Success? && Rises(q, Mid(now, PriceReached(IsExact(q), c, v, sqrt, i, t, now, rest))) {
      Finish(v, t0, t, IsExact(q), total, rest, amount, last.value);
    }
  }

  lemma Finish(v: View, t0: real, t: real, isExact: bool, total: real, rest: real, amount: real, last: real)
    requires SoFar(v, t0, t, isExact, total, rest, amount) && QuoteIn(v, t, isExact, rest, last)
    ensures QuoteIn(v, t0, isExact, total, amount + last)
  {
    assert if isExact then t + rest == t0 + total else t + last == t0 + (amount + last);
  }

  lemma NextStart(c: Curve, v: View, i: nat)
    requires c.Valid() && Shows(v, c) && i + 1 < |c.pos|
    ensures c.Holds(i + 1, c.pos[i + 1]) && v.line(i + 1, c.pos[i + 1]) == c.price[i + 1]
  {
    assert c.LineAt(i + 1, c.pos[i + 1]) == c.price[i + 1] by {
      if i + 2 < |c.pos| {
        c.LineEnds(i + 1);
      }
    }
  }

  /** The distance to the next breakpoint and the fee in force, at the top of the loop. */
  method Measure(isMint: bool, xs: seq<real>, ys: seq<real>, i: nat, currentExposure: real, stablecoinsIssued: real,
                 other: real, ghost c: Curve, ghost v: View, ghost t: real, ghost now: real)
    returns (amountToNext: real, currentFees: real)
    requires ValidTable(isMint, xs, ys) && other > 0.0 && Draws(c, isMint, xs, ys, other) && Shows(v, c)
    requires i + 1 < |xs| && t == Position(isMint, stablecoinsIssued)
    requires currentExposure < 1.0 && (currentExposure == xs[i] ==> t == c.pos[i]) && now == v.line(i, t)
    ensures amountToNext == c.pos[i + 1] - t
    ensures Position(isMint, if isMint then stablecoinsIssued + amountToNext else stablecoinsIssued - amountToNext) ==
            c.pos[i + 1]
    ensures Price(isMint, currentFees) == now && Price(isMint, ys[i + 1]) == c.price[i + 1]
  {
    amountToNext := AmountToNext(isMint, stablecoinsIssued, other, xs[i + 1]);
    CurrentFeesPrice(isMint, xs, ys, other, stablecoinsIssued, currentExposure, i, c, t);
    currentFees := CurrentFees(isMint, xs[i], ys[i], ys[i + 1], currentExposure, stablecoinsIssued, other,
                               amountToNext);
  }

  /** The charge for a whole segment is the area over it. */
  lemma SegmentArea(c: Curve, i: nat, t: real, b: real, p: real)
    requires c.Valid() && c.Holds(i, t) && i + 1 < |c.pos| && b == c.pos[i + 1] - t
    requires p == Mid(c.LineAt(i, t), c.price[i + 1])
    ensures c.Cost(t, b) == b * p
  {
    c.LineEnds(i);
    c.CostWithin(i, t, b, p);
  }

  lemma SegmentCharged(isMint: bool, b: real, cf: real, uf: real, p: real)
    requires p == Mid(Price(isMint, cf), Price(isMint, uf))
    ensures var r := SegmentCost(isMint, b, uf, cf);
            (r.Success? <==> Chargeable(isMint, p)) && (if r.Success? then r.value == b * p else r.error == InvalidSwap)
  {
  }

  method SegmentValue(isMint: bool, amountToNext: real, upperFees: real, currentFees: real,
                      ghost c: Curve, ghost v: View, ghost i: nat, ghost t: real, ghost now: real)
    returns (r: Result<real, SwapError>)
    requires c.Valid() && Shows(v, c) && c.Holds(i, t) && i + 1 < |c.pos| && amountToNext == c.pos[i + 1] - t
    requires Price(isMint, currentFees) == now == v.line(i, t) && Price(isMint, upperFees) == c.price[i + 1]
    ensures r.Success? ==> r.value == v.area(c.pos[i + 1]) - v.area(t)
    ensures r.Success? <==> Chargeable(isMint, Mid(now, c.price[i + 1]))
    ensures r.Success? || r.error == InvalidSwap
  {
    assert now == c.LineAt(i, t);
    ghost var p := Mid(now, c.price[i + 1]);
    SegmentArea(c, i, t, amountToNext, p);
    SegmentCharged(isMint, amountToNext, currentFees, upperFees, p);
    r := SegmentCost(isMint, amountToNext, upperFees, currentFees);
    assert t + amountToNext == c.pos[i + 1];
  }

  lemma MidChargeable(isMint: bool, c: Curve, i: nat, t: real, m: real)
    requires c.Valid() && i + 1 < |c.pos| && 0.0 <= m <= c.pos[i + 1] - t
    ensures var p := Mid(c.LineAt(i, t), c.LineAt(i, t + m));
            && (Chargeable(isMint, c.LineAt(i, t)) && Chargeable(isMint, c.price[i + 1]) ==> Chargeable(isMint, p))
            && (!Chargeable(isMint, c.LineAt(i, t)) && !Chargeable(isMint, c.price[i + 1]) ==> !Chargeable(isMint, p))
  {
    var g, f := c.LineAt(i, t), c.price[i + 1];
    c.LineBetween(i, t, t + m, if g < f then g else f, if g < f then f else g);
  }

  /** The branch of the loop that ends inside a segment. */
  method LastPart(q: QuoteType, currentFees: real, upperFees: real, amountStable: real, amountToNext: real,
                  sqrt: real -> real, ghost c: Curve, ghost v: View, ghost i: nat, ghost t: real, ghost now: real)
    returns (r: Result<real, SwapError>)
    requires c.Valid() && Shows(v, c) && c.Holds(i, t) && i + 1 < |c.pos| && IsSqrt(sqrt)
    requires amountToNext == c.pos[i + 1] - t && 0.0 <= amountStable
    requires Price(IsMint(q), currentFees) == now == v.line(i, t) && Price(IsMint(q), upperFees) == c.price[i + 1]
    requires amountStable <= Room(IsExact(q), c, v, i, t)
    ensures var price := Mid(now, PriceReached(IsExact(q), c, v, sqrt, i, t, now, amountStable));
            && Answers(q, v, t, amountStable, Chargeable(IsMint(q), price), price, r)
            && (r.Success? && Rises(q, price) && !IsExact(q) ==> t + r.value <= c.pos[i + 1])
  {
    var midFee := MidFee(IsMint(q), IsExact(q), currentFees, upperFees, amountStable, amountToNext, sqrt);
    assert now == c.LineAt(i, t);
    if IsExact(q) {
      PartialExact(q, c, i, t, currentFees, upperFees, amountStable, amountToNext, sqrt);
      assert v.line(i, t + amountStable) == c.LineAt(i, t + amountStable);
    } else {
      assert t + amountToNext == c.pos[i + 1];
      PartialInverse(q, c, i, t, currentFees, upperFees, amountStable, amountToNext, sqrt, midFee, now, c.price[i + 1]);
    }
    r := ComputeFee(q, amountStable, midFee);
  }

  lemma PartialInverse(q: QuoteType, c: Curve, i: nat, t: real, cf: real, uf: real, v: real, b: real,
                       sqrt: real -> real, fee: real, g: real, f: real)
    requires c.Valid() && c.Holds(i, t) && i + 1 < |c.pos| && !IsExact(q) && IsSqrt(sqrt)
    requires g == c.LineAt(i, t) == Price(IsMint(q), cf) && f == c.price[i + 1] == Price(IsMint(q), uf)
    requires b == c.pos[i + 1] - t && 0.0 <= v <= c.Cost(t, b)
    requires fee == MidFee(IsMint(q), false, cf, uf, v, b, sqrt)
    ensures Price(IsMint(q), fee) == Mid(g, sqrt(Radicand(g, f, b, v)))
    ensures var r := ComputeFee(q, v, fee);
            r.Success? && Rises(q, Mid(g, sqrt(Radicand(g, f, b, v)))) ==>
              0.0 <= r.value <= b && c.Cost(t, r.value) == v
  {
    SegmentArea(c, i, t, b, Mid(g, f));
    RootPrice(q, g, f, cf, uf, v, b, sqrt);
    RootCharged(q, c, i, t, v, sqrt(Radicand(g, f, b, v)), fee, g, f, b);
  }

  /** After the last breakpoint the fee is constant. */
  method LastSegment(q: QuoteType, amountStable: real, fee: real, ghost c: Curve, ghost v: View, ghost i: nat,
                     ghost t: real, ghost now: real)
    returns (r: Result<real, SwapError>)
    requires c.Valid() && Shows(v, c) && c.Holds(i, t) && i + 1 == |c.pos| && amountStable >= 0.0
    requires Price(IsMint(q), fee) == c.price[i] && now == v.line(i, t)
    ensures Answers(q, v, t, amountStable, Chargeable(IsMint(q), c.price[i]), c.price[i], r)
    ensures r == ComputeFee(q, amountStable, fee)
  {
    r := ComputeFee(q, amountStable, fee);
    if r.Success? && Rises(q, c.price[i]) {
      Tail(q, c, i, t, amountStable, fee);
    }
  }

  lemma Tail(q: QuoteType, c: Curve, i: nat, t: real, amountStable: real, fee: real)
    requires c.Valid() && c.Holds(i, t) && i + 1 == |c.pos| && amountStable >= 0.0
    requires Price(IsMint(q), fee) == c.price[i] && Rises(q, c.price[i])
    requires ComputeFee(q, amountStable, fee).Success?
    ensures var r := ComputeFee(q, amountStable, fee).value;
            if IsExact(q) then r == c.Cost(t, amountStable) else r >= 0.0 && c.Cost(t, r) == amountStable
  {
    var v := ComputeFee(q, amountStable, fee).value;
    var p := c.price[i];
    if IsExact(q) {
      ChargedExact(q, amountStable, fee, p, v);
      c.CostWithin(i, t, amountStable, p);
    } else {
      ChargedInverse(q, amountStable, fee, p, v);
      NonNegative(v, p, amountStable);
      c.CostWithin(i, t, v, p);
    }
  }

  lemma NonNegative(a: real, k: real, v: real)
    requires a * k == v && k > 0.0 && v >= 0.0
    ensures a >= 0.0
  {
    if a < 0.0 {
      Curve.Product(-a, k);
    }
  }

  // ----- the four quotes -----

  predicate OverCap(stablecoinCap: real, minted: real, stablecoinsIssued: real) {
    stablecoinCap >= 0.0 && minted + stablecoinsIssued > stablecoinCap
  }

  /** What is said of minting for a given worth: the first amount of that cost, unless the price it
      is divided by is not positive; refused when a price on the way is, or over the cap. */
  ghost predicate Minted(c: Curve, sqrt: real -> real, stablecoinCap: real, stablecoinsIssued: real, worth: real,
                         r: Result<real, SwapError>)
    requires c.Valid()
  {
    var accepted := Acceptance(MintExactInput, c, sqrt)(stablecoinsIssued, worth);
    var price := LastPrice(MintExactInput, c, sqrt)(stablecoinsIssued, worth);
    && (r.Success? ==> accepted && price != 0.0 && !OverCap(stablecoinCap, r.value, stablecoinsIssued))
    && (r.Success? && price > 0.0 ==> IsQuote(c, stablecoinsIssued, false, worth, r.value))
    && (!accepted ==> r == Failure(InvalidSwap))
    && (accepted && price > 0.0 && r.Failure? ==>
          r.error == InvalidSwap && exists m :: IsQuote(c, stablecoinsIssued, false, worth, m)
                                                && OverCap(stablecoinCap, m, stablecoinsIssued))
    && (AllChargeable(true, c, stablecoinsIssued) ==> accepted)
  }

  /** Over a cap an infinite amount is refused like any other. */
  method QuoteMintExactInput(oracleValue: real, amountIn: real, fees: Fees, stablecoinsIssued: real, other: real,
                             stablecoinCap: real, sqrt: real -> real)
    returns (r: Result<real, SwapError>)
    requires IsSqrt(sqrt) && amountIn * oracleValue >= 0.0 && other > 0.0 && other + stablecoinsIssued > 0.0
    requires ValidTable(true, fees.xFeeMint, fees.yFeeMint)
    ensures Minted(QuoteCurve(fees, MintExactInput, other), sqrt, stablecoinCap, stablecoinsIssued,
                   amountIn * oracleValue, r)
  {
    var quoted := QuoteFees(fees, MintExactInput, amountIn * oracleValue, stablecoinsIssued, other, sqrt);
    if quoted == Failure(Infinite) && stablecoinCap >= 0.0 {
      return Failure(InvalidSwap);
    }
    var amountOut :- quoted;
    if stablecoinCap >= 0.0 && amountOut + stablecoinsIssued > stablecoinCap {
      return Failure(InvalidSwap);
    }
    return Success(amountOut);
  }

  /** What is issued already counts toward the cap: minting in two steps goes over it where minting at
      once does. A negative cap is none. */
  lemma CapCounts(cap: real, first: real, second: real, issued: real)
    ensures OverCap(cap, first + second, issued) <==> OverCap(cap, second, issued + first)
    ensures OverCap(cap, first, 0.0) <==> 0.0 <= cap < first
  {
  }

  method QuoteMintExactOutput(oracleValue: real, amountOut: real, fees: Fees, stablecoinsIssued: real, other: real,
                              stablecoinCap: real, sqrt: real -> real)
    returns (r: Result<real, SwapError>)
    requires IsSqrt(sqrt) && oracleValue > 0.0 && amountOut >= 0.0 && other > 0.0 && other + stablecoinsIssued > 0.0
    requires ValidTable(true, fees.xFeeMint, fees.yFeeMint)
    ensures var c := QuoteCurve(fees, MintExactOutput, other);
            && (r.Success? ==> r.value * oracleValue == c.Cost(stablecoinsIssued, amountOut))
            && (r.Success? <==> !OverCap(stablecoinCap, amountOut, stablecoinsIssued)
                                && Acceptance(MintExactOutput, c, sqrt)(stablecoinsIssued, amountOut))
            && (r.Failure? ==> r.error == InvalidSwap)
            && (AllChargeable(true, c, stablecoinsIssued) && !OverCap(stablecoinCap, amountOut, stablecoinsIssued) ==>
                  r.Success?)
  {
    if stablecoinCap >= 0.0 && amountOut + stablecoinsIssued > stablecoinCap {
      return Failure(InvalidSwap);
    }
    var amountIn :- QuoteFees(fees, MintExactOutput, amountOut, stablecoinsIssued, other, sqrt);
    r := Success(amountIn / oracleValue);
    ScaledQuotient(amountIn, 1.0, oracleValue, r.value);
  }

  method QuoteBurnExactOutput(oracleValue: real, ratio: real, amountOut: real, fees: Fees, stablecoinsIssued: real,
                              other: real, sqrt: real -> real)
    returns (r: Result<real, SwapError>)
    requires IsSqrt(sqrt) && ratio > 0.0 && oracleValue > 0.0 && amountOut >= 0.0
    requires other > 0.0 && other + stablecoinsIssued > 0.0
    requires ValidTable(false, fees.xFeeBurn, fees.yFeeBurn)
    ensures var c, worth := QuoteCurve(fees, BurnExactOutput, other), amountOut * oracleValue / ratio;
            && (r.Success? ==> IsQuote(c, -stablecoinsIssued, false, worth, r.value))
            && (r.Success? <==> Acceptance(BurnExactOutput, c, sqrt)(-stablecoinsIssued, worth))
            && (r.Failure? ==> r.error == InvalidSwap)
            && (AllChargeable(false, c, -stablecoinsIssued) ==> r.Success?)
  {
    var amountIn := amountOut * oracleValue / ratio;
    ScaledQuotient(amountOut, oracleValue, ratio, amountIn);
    NonNegative(amountIn, ratio, oracleValue * amountOut);
    r := QuoteFees(fees, BurnExactOutput, amountIn, stablecoinsIssued, other, sqrt);
  }

  method QuoteBurnExactInput(oracleValue: real, ratio: real, amountIn: real, fees: Fees, stablecoinsIssued: real,
                             other: real, sqrt: real -> real)
    returns (r: Result<real, SwapError>)
    requires IsSqrt(sqrt) && ratio > 0.0 && oracleValue > 0.0 && amountIn >= 0.0
    requires other > 0.0 && other + stablecoinsIssued > 0.0
    requires ValidTable(false, fees.xFeeBurn, fees.yFeeBurn)
    ensures var c := QuoteCurve(fees, BurnExactInput, other);
            && (r.Success? ==> r.value * oracleValue == ratio * c.Cost(-stablecoinsIssued, amountIn))
            && (r.Success? <==> Acceptance(BurnExactInput, c, sqrt)(-stablecoinsIssued, amountIn))
            && (r.Failure? ==> r.error == InvalidSwap)
            && (AllChargeable(false, c, -stablecoinsIssued) ==> r.Success?)
  {
    var amountOut :- QuoteFees(fees, BurnExactInput, amountIn, stablecoinsIssued, other, sqrt);
    ghost var cost := QuoteCurve(fees, BurnExactInput, other).Cost(-stablecoinsIssued, amountIn);
    assert amountOut == cost;
    r := Success(amountOut * ratio / oracleValue);
    ScaledQuotient(cost, ratio, oracleValue, r.value);
  }

  lemma ScaledQuotient(x: real, ratio: real, y: real, r: real)
    requires y != 0.0 && r == x * ratio / y
    ensures r * y == ratio * x
  {
    Quotient(x * ratio, y);
  }
}
