/** The laws of the transmuter quotes, stated on the quoting methods themselves. */
module QuoteTheorems {
  import opened Wrappers
  import opened FeeCurve
  import opened TransmuterQuotes

  /** Prices that can all be charged at one position can be charged at every later one. */
  lemma ChargeableOnward(isMint: bool, c: Curve, t: real, m: real)
    requires c.Valid() && AllChargeable(isMint, c, t) && m >= 0.0
    ensures AllChargeable(isMint, c, t + m)
  {
    var lo, hi := c.BoundsFrom(t);
    assert Chargeable(isMint, c.PriceAt(t)) && Chargeable(isMint, lo) && Chargeable(isMint, hi);
    c.SegmentRises(t, t + m);
    c.PriceOnward(t, m, lo, hi);
  }

  /** The next breakpoint, if there is one, is still ahead. */
  predicate NextAhead(isMint: bool, x: seq<real>, exposure: real, k: nat)
    requires k < |x|
  {
    k + 1 < |x| ==> !Reached(isMint, x[k + 1], exposure)
  }

  /** Every fee from the segment of the exposure on can be charged, and a mint price stays positive. */
  ghost predicate FeesInRange(isMint: bool, x: seq<real>, y: seq<real>, exposure: real)
    requires |x| == |y|
  {
    forall k | 0 <= k < |y| && NextAhead(isMint, x, exposure, k) ::
      if isMint then -BASE_9 < y[k] < BASE_12 else y[k] < MAX_BURN_FEE
  }

  /** The exposure has reached the first breakpoint, or the fee before the second one is constant. */
  predicate OnTable(isMint: bool, x: seq<real>, y: seq<real>, exposure: real)
    requires |x| == |y| > 0
  {
    |x| == 1 || y[0] == y[1] || Reached(isMint, x[0], exposure)
  }

  /** What a caller can check before quoting: then no price on the way is refused. */
  lemma TableChargeable(fees: Fees, q: QuoteType, stablecoinsIssued: real, other: real)
    requires ValidTable(IsMint(q), XFees(fees, q), YFees(fees, q))
    requires other > 0.0 && other + stablecoinsIssued > 0.0
    requires var e := stablecoinsIssued * BASE_9 / (other + stablecoinsIssued);
             && FeesInRange(IsMint(q), XFees(fees, q), YFees(fees, q), e)
             && OnTable(IsMint(q), XFees(fees, q), YFees(fees, q), e)
    ensures var c, t := QuoteCurve(fees, q, other), Position(IsMint(q), stablecoinsIssued);
            AllChargeable(IsMint(q), c, t) && c.PositiveFrom(t) && forall m :: c.PositiveTo(t, m)
  {
    var isMint, x, y := IsMint(q), XFees(fees, q), YFees(fees, q);
    var c, t := QuoteCurve(fees, q, other), Position(isMint, stablecoinsIssued);
    if t < c.pos[0] {
      BeforeTable(isMint, x, y, other, stablecoinsIssued);
    }
    var i := c.Segment(t);
    forall k | i <= k < |y|
      ensures Chargeable(isMint, c.price[k]) && c.price[k] > 0.0
    {
      NextStillAhead(isMint, x, y, other, stablecoinsIssued, k);
      assert c.price[k] == Price(isMint, y[k]);
    }
    PriceBetweenEnds(c, t, i);
    forall m
      ensures c.PositiveTo(t, m)
    {
      c.PositiveAhead(t, m);
    }
  }

  /** With prices that stay positive a mint is never divided by anything else. */
  lemma LastPricePositive(c: Curve, sqrt: real -> real, t: real, worth: real)
    requires c.Valid() && IsSqrt(sqrt) && worth >= 0.0 && c.PositiveFrom(t)
    ensures LastPrice(MintExactInput, c, sqrt)(t, worth) > 0.0
  {
    var i, v := c.Segment(t), ViewOf(c);
    assert c.PriceAt(t) == c.LineAt(i, t) == v.line(i, t);
    EndPricePositive(c, v, sqrt, i, t, v.line(i, t), worth);
    AcceptedWhen(MintExactInput, c, sqrt, t, i, worth);
  }

  lemma {:induction false} EndPricePositive(c: Curve, v: View, sqrt: real -> real, i: nat, t: real, now: real,
                                            rest: real)
    requires c.Valid() && Shows(v, c) && c.Holds(i, t) && IsSqrt(sqrt) && rest >= 0.0
    requires now == v.line(i, t) && now > 0.0 && forall k | i < k < |c.price| :: c.price[k] > 0.0
    ensures EndPrice(MintExactInput, c, v, sqrt, i, t, now, rest) > 0.0
    decreases |c.pos| - i
  {
    assert now == c.LineAt(i, t);
    if i + 1 < |c.pos| {
      var room, f, b := Room(false, c, v, i, t), c.price[i + 1], c.pos[i + 1] - t;
      if rest <= room {
        SegmentArea(c, i, t, b, Mid(now, f));
        assert t + b == c.pos[i + 1];
        RadicandNonNegative(now, f, b, rest);
      } else {
        NextStart(c, v, i);
        EndPricePositive(c, v, sqrt, i + 1, c.pos[i + 1], f, rest - room);
      }
    }
  }

  /** From its segment on, the next breakpoint is ahead. */
  lemma NextStillAhead(isMint: bool, x: seq<real>, y: seq<real>, other: real, issued: real, k: nat)
    requires ValidTable(isMint, x, y) && other > 0.0 && other + issued > 0.0
    requires CurveOf(isMint, x, y, other).Segment(Position(isMint, issued)) <= k < |x|
    ensures NextAhead(isMint, x, issued * BASE_9 / (other + issued), k)
  {
    var e := issued * BASE_9 / (other + issued);
    var c, t := CurveOf(isMint, x, y, other), Position(isMint, issued);
    ExposureOf(other, issued);
    if k + 1 < |x| {
      assert t < c.pos[k + 1];
      assert c.pos[k + 1] == BreakPosition(isMint, other, x, k + 1);
      if Reached(isMint, x[k + 1], e) && x[k + 1] != e {
        if isMint { SupplyOrder(other, x[k + 1], e); } else { SupplyOrder(other, e, x[k + 1]); }
      }
    }
  }

  /** At or after the first breakpoint, or before a flat first segment, the price lies between the
      prices at the ends of its segment. */
  lemma PriceBetweenEnds(c: Curve, t: real, i: nat)
    requires c.Valid() && i == c.Segment(t) && (t >= c.pos[0] || |c.pos| == 1 || c.price[0] == c.price[1])
    ensures var f := if i + 1 < |c.pos| then c.price[i + 1] else c.price[i];
            c.price[i] <= c.PriceFunction()(t) <= f || f <= c.PriceFunction()(t) <= c.price[i]
  {
    assert c.PriceAt(t) == c.LineAt(i, t);
    if i + 1 < |c.pos| {
      var g, f := c.price[i], c.price[i + 1];
      if t < c.pos[0] {
        FlatLine(c, 0, t);
      } else {
        c.LineEnds(i);
        c.LineBetween(i, c.pos[i], t, if g < f then g else f, if g < f then f else g);
      }
    }
  }

  lemma BeforeTable(isMint: bool, x: seq<real>, y: seq<real>, other: real, issued: real)
    requires ValidTable(isMint, x, y) && other > 0.0 && other + issued > 0.0
    requires Position(isMint, issued) < CurveOf(isMint, x, y, other).pos[0]
    requires OnTable(isMint, x, y, issued * BASE_9 / (other + issued))
    ensures |x| > 1 ==> y[0] == y[1]
  {
    var e := issued * BASE_9 / (other + issued);
    ExposureOf(other, issued);
    if x[0] < 1.0 && x[0] != e && Reached(isMint, x[0], e) {
      if isMint { SupplyOrder(other, x[0], e); } else { SupplyOrder(other, e, x[0]); }
    }
  }

  // ----- there and back -----

  /** The segment in which a move of `m` ends can be charged as a whole. */
  ghost predicate WholeEnd(isMint: bool, c: Curve, i: nat, t: real, now: real, m: real)
    requires c.Valid() && i < |c.pos|
    decreases |c.pos| - i
  {
    i + 1 < |c.pos| ==>
      if m <= c.pos[i + 1] - t then Chargeable(isMint, Mid(now, c.price[i + 1]))
      else WholeEnd(isMint, c, i + 1, c.pos[i + 1], c.price[i + 1], m - (c.pos[i + 1] - t))
  }

  ghost predicate EndsWhole(isMint: bool, c: Curve, t: real, m: real)
    requires c.Valid()
  {
    WholeEnd(isMint, c, c.Segment(t), t, c.PriceAt(t), m)
  }

  /** Spending what a move within a segment costs ends where the move does, at the price there. */
  lemma EndsInside(c: Curve, v: View, sqrt: real -> real, i: nat, t: real, now: real, m: real, spent: real)
    requires c.Valid() && Shows(v, c) && c.Holds(i, t) && i + 1 < |c.pos| && IsSqrt(sqrt)
    requires now == v.line(i, t) && now > 0.0 && c.price[i + 1] > 0.0
    requires 0.0 <= m <= c.pos[i + 1] - t && spent == v.area(t + m) - v.area(t)
    ensures spent <= v.area(c.pos[i + 1]) - v.area(t)
    ensures v.line(i, t + m) > 0.0
    ensures sqrt(Radicand(now, c.price[i + 1], c.pos[i + 1] - t, spent)) == v.line(i, t + m)
  {
    assert now == c.LineAt(i, t);
    var f, b, l := c.price[i + 1], c.pos[i + 1] - t, c.LineAt(i, t + m);
    c.PositiveLine(i, t, t + m);
    AlongLine(c, i, t, m, now, f, b);
    c.CostWithin(i, t, m, Mid(now, l));
    SegmentArea(c, i, t, b, Mid(now, f));
    assert t + b == c.pos[i + 1];
    RootReached(now, f, b, m, l, spent, b * Mid(now, f));
    SquareRoot(sqrt, Radicand(now, f, b, spent), l);
  }

  lemma RootReached(g: real, f: real, b: real, m: real, l: real, spent: real, whole: real)
    requires 0.0 <= m <= b && b > 0.0 && l == Along(g, f, b, m) && l > 0.0 && f > 0.0
    requires spent == m * Mid(g, l) && whole == b * Mid(g, f)
    ensures spent <= whole && Radicand(g, f, b, spent) == l * l
  {
    var k := (f - g) / b;
    TransmuterQuotes.Quotient(f - g, b);
    var km, kb := k * m, k * b;
    Regroup(k, m, b, km, kb);
    Expand(g, f, l, b, m, km, kb);
    if m < b {
      Curve.Product(b - m, f + l);
    }
    assert k * spent == (k * m) * Mid(g, l);
    assert (l - g) * (g + l) == l * l - g * g;
  }

  lemma SquareRoot(sqrt: real -> real, x: real, l: real)
    requires IsSqrt(sqrt) && l > 0.0 && x == l * l
    ensures sqrt(x) == l
  {
    var s := sqrt(x);
    assert (s - l) * (s + l) == s * s - l * l;
    ZeroFactor(s - l, s + l);
  }

  /** What is said of spending what a move costs. */
  ghost predicate ComesBack(q: QuoteType, back: QuoteType, c: Curve, v: View, sqrt: real -> real, i: nat, t: real,
                            now: real, m: real, spent: real)
    requires c.Valid() && c.Holds(i, t)
  {
    && EndPrice(back, c, v, sqrt, i, t, now, spent) > 0.0
    && (Accepted(back, c, v, sqrt, i, t, now, spent) <==>
        Accepted(q, c, v, sqrt, i, t, now, m) && WholeEnd(IsMint(q), c, i, t, now, m))
  }

  lemma ComesBackInside(q: QuoteType, back: QuoteType, c: Curve, v: View, sqrt: real -> real, i: nat, t: real,
                        now: real, m: real, spent: real)
    requires IsExact(q) && !IsExact(back) && IsMint(q) == IsMint(back)
    requires c.Valid() && Shows(v, c) && c.Holds(i, t) && i + 1 < |c.pos| && IsSqrt(sqrt)
    requires now == v.line(i, t) && now > 0.0 && c.price[i + 1] > 0.0
    requires 0.0 <= m <= c.pos[i + 1] - t && spent == v.area(t + m) - v.area(t)
    ensures ComesBack(q, back, c, v, sqrt, i, t, now, m, spent)
  {
    EndsInside(c, v, sqrt, i, t, now, m, spent);
    EndPriceStep(back, c, v, sqrt, i, t, now, spent);
    AcceptedStep(back, c, v, sqrt, i, t, now, spent);
    AcceptedStep(q, c, v, sqrt, i, t, now, m);
  }

  lemma ComesBackBeyond(q: QuoteType, back: QuoteType, c: Curve, v: View, sqrt: real -> real, i: nat, t: real,
                        now: real, m: real, spent: real)
    requires IsExact(q) && !IsExact(back) && IsMint(q) == IsMint(back)
    requires c.Valid() && c.Holds(i, t) && i + 1 < |c.pos| && c.Holds(i + 1, c.pos[i + 1])
    requires m > Room(true, c, v, i, t) && spent > Room(false, c, v, i, t)
    requires ComesBack(q, back, c, v, sqrt, i + 1, c.pos[i + 1], c.price[i + 1], m - Room(true, c, v, i, t),
                       spent - Room(false, c, v, i, t))
    ensures ComesBack(q, back, c, v, sqrt, i, t, now, m, spent)
  {
    EndPriceStep(back, c, v, sqrt, i, t, now, spent);
    AcceptedStep(back, c, v, sqrt, i, t, now, spent);
    AcceptedStep(q, c, v, sqrt, i, t, now, m);
  }

  /** What is left of a move after a first part. */
  lemma PositiveNext(c: Curve, t: real, m: real, w: real, rest: real)
    requires c.Valid() && c.PositiveTo(t, m) && t <= w && 0.0 < rest && w + rest == t + m
    ensures c.PositiveTo(w, rest) && c.Cost(w, rest) > 0.0
  {
    c.PositiveOnward(t, w - t, m);
    assert t + (w - t) == w && m - (w - t) == rest;
    c.CostPositive(w, rest);
  }

  /** Spending what a move costs over positive prices is granted exactly when the move is and the
      segment where it ends can be charged as a whole. */
  lemma {:induction false} Returns(q: QuoteType, back: QuoteType, c: Curve, v: View, sqrt: real -> real, i: nat,
                                   t: real, now: real, m: real, spent: real)
    requires IsExact(q) && !IsExact(back) && IsMint(q) == IsMint(back)
    requires c.Valid() && Shows(v, c) && c.Holds(i, t) && IsSqrt(sqrt) && m >= 0.0 && c.PositiveTo(t, m)
    requires now == v.line(i, t) && spent == v.area(t + m) - v.area(t)
    ensures ComesBack(q, back, c, v, sqrt, i, t, now, m, spent)
    decreases |c.pos| - i
  {
    c.SegmentUnique(i, t);
    assert c.PriceAt(t) == c.LineAt(i, t) == now > 0.0;
    if i + 1 < |c.pos| {
      assert c.Touched(t, m, i + 1);
      var room, w := c.pos[i + 1] - t, c.pos[i + 1];
      if m <= room {
        ComesBackInside(q, back, c, v, sqrt, i, t, now, m, spent);
      } else {
        var rest := m - room;
        PositiveNext(c, t, m, w, rest);
        NextStart(c, v, i);
        Returns(q, back, c, v, sqrt, i + 1, w, c.price[i + 1], rest, spent - (v.area(w) - v.area(t)));
        ComesBackBeyond(q, back, c, v, sqrt, i, t, now, m, spent);
      }
    }
  }

  /** The same of whole quotes. */
  lemma ReturnsWhole(q: QuoteType, back: QuoteType, c: Curve, sqrt: real -> real, t: real, m: real, spent: real)
    requires IsExact(q) && !IsExact(back) && IsMint(q) == IsMint(back)
    requires c.Valid() && IsSqrt(sqrt) && m >= 0.0 && c.PositiveTo(t, m) && spent == c.Cost(t, m)
    ensures LastPrice(back, c, sqrt)(t, spent) > 0.0
    ensures Acceptance(back, c, sqrt)(t, spent) <==> Acceptance(q, c, sqrt)(t, m) && EndsWhole(IsMint(q), c, t, m)
    ensures AllChargeable(IsMint(q), c, t) ==> Acceptance(q, c, sqrt)(t, m) && Acceptance(back, c, sqrt)(t, spent)
  {
    var i, v := c.Segment(t), ViewOf(c);
    assert c.PriceAt(t) == c.LineAt(i, t) == v.line(i, t);
    Returns(q, back, c, v, sqrt, i, t, v.line(i, t), m, spent);
    c.CostNonNegative(t, m);
    AcceptedWhen(q, c, sqrt, t, i, m);
    AcceptedWhen(back, c, sqrt, t, i, spent);
  }

  /** A quote that is granted although its inverse is not: the fee rises steeply, to over the limit,
      and the quote ends halfway. */
  lemma GrantedOneWay(sqrt: real -> real)
    requires IsSqrt(sqrt)
    ensures var c := Curve([0.0, 1.0], [1.0, 3001.0]);
            && c.Valid() && c.PositiveTo(0.0, 0.5)
            && Acceptance(MintExactOutput, c, sqrt)(0.0, 0.5)
            && !Acceptance(MintExactInput, c, sqrt)(0.0, c.Cost(0.0, 0.5))
  {
    var c := Curve([0.0, 1.0], [1.0, 3001.0]);
    c.SegmentUnique(0, 0.0);
    assert c.Slope(0) == 3000.0;
    assert c.PriceAt(0.0) == 1.0 && c.LineAt(0, 0.5) == 1501.0;
    AcceptedWhen(MintExactOutput, c, sqrt, 0.0, 0, 0.5);
    assert ViewOf(c).line(0, 0.5) == c.LineAt(0, 0.5);
    assert !EndsWhole(true, c, 0.0, 0.5);
    ReturnsWhole(MintExactOutput, MintExactInput, c, sqrt, 0.0, 0.5, c.Cost(0.0, 0.5));
  }

  /** Minting what an exact-output quote asks for gives back exactly the amount quoted, as far as
      prices are positive where the quote goes: refused only if the quote is, or if the segment in
      which it ends cannot be charged as a whole. */
  method MintThereAndBack(oracleValue: real, amount: real, fees: Fees, stablecoinsIssued: real, other: real,
                          stablecoinCap: real, sqrt: real -> real)
    returns (paid: Result<real, SwapError>, back: Result<real, SwapError>)
    requires IsSqrt(sqrt) && oracleValue > 0.0 && amount >= 0.0 && other > 0.0 && other + stablecoinsIssued > 0.0
    requires ValidTable(true, fees.xFeeMint, fees.yFeeMint)
    requires QuoteCurve(fees, MintExactOutput, other).PositiveTo(stablecoinsIssued, amount)
    ensures var c := QuoteCurve(fees, MintExactOutput, other);
            && (paid.Success? <==> !OverCap(stablecoinCap, amount, stablecoinsIssued)
                                   && Acceptance(MintExactOutput, c, sqrt)(stablecoinsIssued, amount))
            && (back == if paid.Success? && EndsWhole(true, c, stablecoinsIssued, amount) then Success(amount)
                        else Failure(InvalidSwap))
            && (AllChargeable(true, c, stablecoinsIssued) ==>
                  back == if OverCap(stablecoinCap, amount, stablecoinsIssued) then Failure(InvalidSwap)
                          else Success(amount))
  {
    ghost var c, t := QuoteCurve(fees, MintExactInput, other), stablecoinsIssued;
    assert c == QuoteCurve(fees, MintExactOutput, other);
    paid := QuoteMintExactOutput(oracleValue, amount, fees, stablecoinsIssued, other, stablecoinCap, sqrt);
    if paid.Failure? {
      return paid, Failure(InvalidSwap);
    }
    var given := paid.value;
    ghost var cost := c.Cost(t, amount);
    c.CostNonNegative(t, amount);
    assert given * oracleValue == cost;
    back := QuoteMintExactInput(oracleValue, given, fees, stablecoinsIssued, other, stablecoinCap, sqrt);
    MintedBack(c, sqrt, stablecoinCap, t, amount, given * oracleValue, back);
  }

  lemma MintedBack(c: Curve, sqrt: real -> real, cap: real, t: real, amount: real, worth: real,
                   back: Result<real, SwapError>)
    requires c.Valid() && IsSqrt(sqrt) && amount >= 0.0 && c.PositiveTo(t, amount) && worth == c.Cost(t, amount)
    requires Acceptance(MintExactOutput, c, sqrt)(t, amount) && !OverCap(cap, amount, t)
    requires Minted(c, sqrt, cap, t, worth, back)
    ensures back == if EndsWhole(true, c, t, amount) then Success(amount) else Failure(InvalidSwap)
    ensures AllChargeable(true, c, t) ==> back == Success(amount)
  {
    ReturnsWhole(MintExactOutput, MintExactInput, c, sqrt, t, amount, worth);
    if back.Success? {
      OnlyQuote(c, t, amount, worth, back.value);
    } else if Acceptance(MintExactInput, c, sqrt)(t, worth) {
      var m :| IsQuote(c, t, false, worth, m) && OverCap(cap, m, t);
      OnlyQuote(c, t, amount, worth, m);
    }
  }

  lemma OnlyQuote(c: Curve, t: real, amount: real, worth: real, m: real)
    requires c.Valid() && amount >= 0.0 && c.PositiveTo(t, amount) && worth == c.Cost(t, amount)
    requires IsQuote(c, t, false, worth, m)
    ensures m == amount
  {
    c.FirstCostInjective(t, amount, m);
  }

  /** Asking for the collateral that burning an amount yields costs exactly that amount, under the
      same condition. */
  method BurnThereAndBack(oracleValue: real, ratio: real, amount: real, fees: Fees, stablecoinsIssued: real,
                          other: real, sqrt: real -> real)
    returns (got: Result<real, SwapError>, back: Result<real, SwapError>)
    requires IsSqrt(sqrt) && ratio > 0.0 && oracleValue > 0.0 && amount >= 0.0
    requires other > 0.0 && other + stablecoinsIssued > 0.0
    requires ValidTable(false, fees.xFeeBurn, fees.yFeeBurn)
    requires QuoteCurve(fees, BurnExactInput, other).PositiveTo(-stablecoinsIssued, amount)
    ensures var c := QuoteCurve(fees, BurnExactInput, other);
            && (got.Success? <==> Acceptance(BurnExactInput, c, sqrt)(-stablecoinsIssued, amount))
            && (back == if got.Success? && EndsWhole(false, c, -stablecoinsIssued, amount) then Success(amount)
                        else Failure(InvalidSwap))
            && (AllChargeable(false, c, -stablecoinsIssued) ==> back == Success(amount))
  {
    ghost var c, t := QuoteCurve(fees, BurnExactInput, other), -stablecoinsIssued;
    assert c == QuoteCurve(fees, BurnExactOutput, other);
    ghost var cost := c.Cost(t, amount);
    got := QuoteBurnExactInput(oracleValue, ratio, amount, fees, stablecoinsIssued, other, sqrt);
    if got.Failure? {
      return got, Failure(InvalidSwap);
    }
    var given := got.value;
    c.CostNonNegative(t, amount);
    assert given * oracleValue == ratio * cost;
    ScaledBack(given, oracleValue, ratio, cost);
    back := QuoteBurnExactOutput(oracleValue, ratio, given, fees, stablecoinsIssued, other, sqrt);
    BurntBack(c, sqrt, t, amount, cost, back);
  }

  lemma BurntBack(c: Curve, sqrt: real -> real, t: real, amount: real, worth: real, back: Result<real, SwapError>)
    requires c.Valid() && IsSqrt(sqrt) && amount >= 0.0 && c.PositiveTo(t, amount) && worth == c.Cost(t, amount)
    requires Acceptance(BurnExactInput, c, sqrt)(t, amount)
    requires back.Success? <==> Acceptance(BurnExactOutput, c, sqrt)(t, worth)
    requires if back.Success? then IsQuote(c, t, false, worth, back.value) else back.error == InvalidSwap
    ensures back == if EndsWhole(false, c, t, amount) then Success(amount) else Failure(InvalidSwap)
    ensures AllChargeable(false, c, t) ==> back == Success(amount)
  {
    ReturnsWhole(BurnExactInput, BurnExactOutput, c, sqrt, t, amount, worth);
    if back.Success? {
      OnlyQuote(c, t, amount, worth, back.value);
    }
  }

  lemma ScaledBack(x: real, k: real, ratio: real, cost: real)
    requires k > 0.0 && ratio > 0.0 && cost >= 0.0 && x * k == ratio * cost
    ensures x >= 0.0 && x * k / ratio == cost
  {
    assert ratio * cost >= 0.0;
    NonNegative(x, k, ratio * cost);
    TransmuterQuotes.Quotient(ratio * cost, ratio);
    ZeroFactor(x * k / ratio - cost, ratio);
  }

  // ----- what is charged, and which quotes are granted -----

  /** At a breakpoint below one the supply issued has its share of all stablecoins, and a stablecoin
      costs, or yields, one with the fee listed there. */
  lemma TableCurve(fees: Fees, q: QuoteType, other: real, i: nat)
    requires ValidTable(IsMint(q), XFees(fees, q), YFees(fees, q)) && other > 0.0 && i < |XFees(fees, q)|
    ensures var c := QuoteCurve(fees, q, other);
            if IsMint(q) then
              && |c.pos| == |fees.xFeeMint| && c.price[i] == 1.0 + fees.yFeeMint[i]
              && fees.xFeeMint[i] * (other + c.pos[i]) == c.pos[i]
            else
              && |c.pos| == |fees.xFeeBurn| && c.price[i] == 1.0 - fees.yFeeBurn[i]
              && (fees.xFeeBurn[i] < 1.0 ==> fees.xFeeBurn[i] * (other - c.pos[i]) == -c.pos[i])
  {
    var x := XFees(fees, q)[i];
    if x < 1.0 {
      TransmuterQuotes.Quotient(other * x, 1.0 - x);
    }
  }

  /** A move by `m` from `t` in segment `i` enters segment `k`. */
  ghost predicate Enters(c: Curve, i: nat, t: real, m: real, k: nat)
    requires c.Valid()
  {
    i <= k < |c.pos| && (i < k ==> c.pos[k] < t + m)
  }

  ghost function EntryPrice(c: Curve, i: nat, t: real, k: nat): real
    requires c.Valid() && i <= k < |c.pos|
  {
    if k == i then c.LineAt(i, t) else c.price[k]
  }

  /** The mean price over segment `k`, from where it is entered to where the move leaves it or ends. */
  ghost function MeanIn(c: Curve, i: nat, t: real, m: real, k: nat): real
    requires c.Valid() && i <= k < |c.pos|
  {
    if k + 1 == |c.pos| then c.price[k]
    else Mid(EntryPrice(c, i, t, k), if t + m <= c.pos[k + 1] then c.LineAt(k, t + m) else c.price[k + 1])
  }

  /** The mean price over every segment the move enters can be charged. */
  ghost predicate MeansCharged(isMint: bool, c: Curve, i: nat, t: real, m: real)
    requires c.Valid()
  {
    forall k: nat | Enters(c, i, t, m, k) :: Chargeable(isMint, MeanIn(c, i, t, m, k))
  }

  lemma EntersNext(isMint: bool, c: Curve, i: nat, t: real, m: real, w: real, rest: real)
    requires c.Valid() && i + 1 < |c.pos| && w == c.pos[i + 1] < t + m && w + rest == t + m
    requires c.LineAt(i + 1, w) == c.price[i + 1]
    ensures MeansCharged(isMint, c, i, t, m) <==>
            Chargeable(isMint, Mid(c.LineAt(i, t), c.price[i + 1])) && MeansCharged(isMint, c, i + 1, w, rest)
  {
    assert Enters(c, i, t, m, i) && MeanIn(c, i, t, m, i) == Mid(c.LineAt(i, t), c.price[i + 1]);
    forall k: nat | i < k < |c.pos|
      ensures Enters(c, i, t, m, k) <==> Enters(c, i + 1, w, rest, k)
      ensures MeanIn(c, i, t, m, k) == MeanIn(c, i + 1, w, rest, k)
    {
    }
    var n := i + 1;
    if MeansCharged(isMint, c, i, t, m) {
      forall k: nat | Enters(c, n, w, rest, k)
        ensures Chargeable(isMint, MeanIn(c, n, w, rest, k))
      {
        assert Enters(c, i, t, m, k);
      }
    }
  }

  lemma {:induction false} GrantedFrom(q: QuoteType, c: Curve, v: View, sqrt: real -> real, i: nat, t: real, now: real,
                                       m: real)
    requires IsExact(q) && c.Valid() && Shows(v, c) && c.Holds(i, t) && now == v.line(i, t) && m >= 0.0
    ensures Accepted(q, c, v, sqrt, i, t, now, m) <==> MeansCharged(IsMint(q), c, i, t, m)
    decreases |c.pos| - i
  {
    assert now == c.LineAt(i, t) && Enters(c, i, t, m, i);
    if i + 1 < |c.pos| {
      var room, w := c.pos[i + 1] - t, c.pos[i + 1];
      AcceptedStep(q, c, v, sqrt, i, t, now, m);
      if m <= room {
        assert v.line(i, t + m) == c.LineAt(i, t + m);
        assert forall k: nat | Enters(c, i, t, m, k) :: k == i;
      } else {
        NextStart(c, v, i);
        assert c.LineAt(i + 1, w) == v.line(i + 1, w);
        GrantedFrom(q, c, v, sqrt, i + 1, w, c.price[i + 1], m - room);
        EntersNext(IsMint(q), c, i, t, m, w, m - room);
      }
    }
  }

  /** An exact quote is granted exactly when the mean price over every segment it enters can be charged. */
  lemma GrantedWhen(q: QuoteType, c: Curve, sqrt: real -> real, t: real, m: real)
    requires IsExact(q) && c.Valid() && IsSqrt(sqrt) && m >= 0.0
    ensures Acceptance(q, c, sqrt)(t, m) <==> MeansCharged(IsMint(q), c, c.Segment(t), t, m)
  {
    var i, v := c.Segment(t), ViewOf(c);
    assert c.PriceAt(t) == c.LineAt(i, t) == v.line(i, t);
    AcceptedWhen(q, c, sqrt, t, i, m);
    GrantedFrom(q, c, v, sqrt, i, t, v.line(i, t), m);
  }

  /** The segment where the move ends could be charged to its end. */
  ghost predicate LastCharged(isMint: bool, c: Curve, i: nat, t: real, m: real)
    requires c.Valid()
  {
    forall k: nat | Enters(c, i, t, m, k) && k + 1 < |c.pos| && t + m <= c.pos[k + 1] ::
      Chargeable(isMint, Mid(EntryPrice(c, i, t, k), c.price[k + 1]))
  }

  lemma {:induction false} WholeEndIs(isMint: bool, c: Curve, i: nat, t: real, now: real, m: real)
    requires c.Valid() && c.Holds(i, t) && now == c.LineAt(i, t) && m >= 0.0
    ensures WholeEnd(isMint, c, i, t, now, m) <==> LastCharged(isMint, c, i, t, m)
    decreases |c.pos| - i
  {
    if i + 1 < |c.pos| {
      var n, w, rest := i + 1, c.pos[i + 1], m - (c.pos[i + 1] - t);
      if m <= c.pos[i + 1] - t {
        assert Enters(c, i, t, m, i) && forall k: nat | Enters(c, i, t, m, k) :: k == i;
      } else {
        c.NextPrice(i);
        c.SegmentUnique(n, w);
        WholeEndIs(isMint, c, n, w, c.price[n], rest);
        LastChargedNext(isMint, c, i, t, m, n, w, rest);
      }
    }
  }

  lemma LastChargedNext(isMint: bool, c: Curve, i: nat, t: real, m: real, n: nat, w: real, rest: real)
    requires c.Valid() && n == i + 1 < |c.pos| && w == c.pos[n] < t + m && w + rest == t + m
    requires c.LineAt(n, w) == c.price[n]
    ensures LastCharged(isMint, c, i, t, m) <==> LastCharged(isMint, c, n, w, rest)
  {
    forall k: nat | n <= k < |c.pos|
      ensures Enters(c, i, t, m, k) <==> Enters(c, n, w, rest, k)
      ensures EntryPrice(c, i, t, k) == EntryPrice(c, n, w, k)
    {
    }
  }

  /** An inverse quote is granted exactly when, besides, the segment where it ends can be charged to its end. */
  lemma GrantedBack(q: QuoteType, c: Curve, sqrt: real -> real, t: real, m: real)
    requires !IsExact(q) && c.Valid() && IsSqrt(sqrt) && m >= 0.0 && c.PositiveTo(t, m)
    ensures var i := c.Segment(t);
            Acceptance(q, c, sqrt)(t, c.Cost(t, m)) <==>
            MeansCharged(IsMint(q), c, i, t, m) && LastCharged(IsMint(q), c, i, t, m)
  {
    var exact := if IsMint(q) then MintExactOutput else BurnExactInput;
    ReturnsWhole(exact, q, c, sqrt, t, m, c.Cost(t, m));
    GrantedWhen(exact, c, sqrt, t, m);
    WholeEndIs(IsMint(q), c, c.Segment(t), t, c.PriceAt(t), m);
  }

  // ----- in two parts -----

  /** The two halves into which a split divides its segment can be charged, each to where it ends. */
  ghost predicate SplitCharged(isMint: bool, c: Curve, i: nat, t: real, now: real, first: real, second: real)
    requires c.Valid() && i < |c.pos|
    decreases |c.pos| - i
  {
    i + 1 < |c.pos| ==>
      var room, split := c.pos[i + 1] - t, c.LineAt(i, t + first);
      if first > room then SplitCharged(isMint, c, i + 1, c.pos[i + 1], c.price[i + 1], first - room, second)
      else if first == room then second > 0.0 || Chargeable(isMint, c.price[i + 1])
      else
        && Chargeable(isMint, Mid(now, split))
        && Chargeable(isMint, Mid(split, if first + second <= room then c.LineAt(i, t + (first + second))
                                         else c.price[i + 1]))
  }

  /** The mean over a stretch lies between the means over its two parts. */
  lemma MeansJoin(isMint: bool, g: real, k: real, x: real, y: real)
    requires x >= 0.0 && y >= 0.0
    requires Chargeable(isMint, Mid(g, g + k * x)) && Chargeable(isMint, Mid(g + k * x, g + k * (x + y)))
    ensures Chargeable(isMint, Mid(g, g + k * (x + y)))
  {
    assert k * (x + y) == k * x + k * y;
    if k >= 0.0 {
      assert k * x >= 0.0 && k * y >= 0.0;
    } else {
      assert k * x <= 0.0 && k * y <= 0.0;
    }
  }

  lemma SplitInside(isMint: bool, c: Curve, i: nat, t: real, now: real, x: real, y: real)
    requires c.Valid() && i + 1 < |c.pos| && now == c.LineAt(i, t) && x >= 0.0 && y >= 0.0
    requires Chargeable(isMint, Mid(now, c.LineAt(i, t + x)))
    requires Chargeable(isMint, Mid(c.LineAt(i, t + x), c.LineAt(i, t + (x + y))))
    ensures Chargeable(isMint, Mid(now, c.LineAt(i, t + (x + y))))
  {
    var s := c.Slope(i);
    Slide(s, t - c.pos[i], x, c.price[i]);
    Slide(s, t - c.pos[i], x + y, c.price[i]);
    MeansJoin(isMint, now, s, x, y);
  }

  lemma Slide(s: real, d: real, x: real, p: real)
    ensures p + s * (d + x) == p + s * d + s * x
  {
  }

  /** Both parts are granted exactly when the whole is and the two halves at the split can be charged. */
  ghost predicate Splits(q: QuoteType, c: Curve, v: View, sqrt: real -> real, i: nat, t: real, now: real, first: real,
                         second: real, j: nat, u: real)
    requires c.Valid() && c.Holds(i, t) && c.Holds(j, u)
  {
    Accepted(q, c, v, sqrt, i, t, now, first) && Accepted(q, c, v, sqrt, j, u, v.line(j, u), second) <==>
    Accepted(q, c, v, sqrt, i, t, now, first + second) && SplitCharged(IsMint(q), c, i, t, now, first, second)
  }

  lemma {:induction false} SplitAccepted(q: QuoteType, c: Curve, v: View, sqrt: real -> real, i: nat, t: real,
                                         now: real, first: real, second: real, j: nat, u: real)
    requires IsExact(q) && c.Valid() && Shows(v, c) && c.Holds(i, t) && now == v.line(i, t)
    requires first >= 0.0 && second >= 0.0 && u == t + first && c.Holds(j, u)
    ensures Splits(q, c, v, sqrt, i, t, now, first, second, j, u)
    decreases |c.pos| - i
  {
    if i + 1 == |c.pos| {
      c.SegmentUnique(i, u);
      c.SegmentUnique(j, u);
    } else {
      var room, w := c.pos[i + 1] - t, c.pos[i + 1];
      if first > room {
        NextStart(c, v, i);
        SplitAccepted(q, c, v, sqrt, i + 1, w, c.price[i + 1], first - room, second, j, u);
        SplitBeyond(q, c, v, sqrt, i, t, now, first, second, j, u);
      } else if first == room {
        SplitAtBreak(q, c, v, sqrt, i, t, now, second, j, u);
      } else {
        SplitWithin(q, c, v, sqrt, i, t, now, first, second, j, u);
      }
    }
  }

  lemma SplitBeyond(q: QuoteType, c: Curve, v: View, sqrt: real -> real, i: nat, t: real, now: real, first: real,
                    second: real, j: nat, u: real)
    requires IsExact(q) && c.Valid() && c.Holds(i, t) && i + 1 < |c.pos| && c.Holds(i + 1, c.pos[i + 1])
    requires first > Room(true, c, v, i, t) && second >= 0.0 && c.Holds(j, u)
    requires Splits(q, c, v, sqrt, i + 1, c.pos[i + 1], c.price[i + 1], first - Room(true, c, v, i, t), second, j, u)
    ensures Splits(q, c, v, sqrt, i, t, now, first, second, j, u)
  {
    AcceptedStep(q, c, v, sqrt, i, t, now, first);
    AcceptedStep(q, c, v, sqrt, i, t, now, first + second);
    assert first + second - Room(true, c, v, i, t) == first - Room(true, c, v, i, t) + second;
  }

  lemma SplitAtBreak(q: QuoteType, c: Curve, v: View, sqrt: real -> real, i: nat, t: real, now: real, second: real,
                     j: nat, u: real)
    requires IsExact(q) && c.Valid() && Shows(v, c) && c.Holds(i, t) && i + 1 < |c.pos|
    requires second >= 0.0 && u == c.pos[i + 1] && c.Holds(j, u)
    ensures var room := c.pos[i + 1] - t;
            Accepted(q, c, v, sqrt, i, t, now, room) && Accepted(q, c, v, sqrt, j, u, v.line(j, u), second) <==>
            Accepted(q, c, v, sqrt, i, t, now, room + second) && (second > 0.0 || Chargeable(IsMint(q), c.price[i + 1]))
  {
    c.SegmentUnique(i + 1, u);
    c.SegmentUnique(j, u);
    NextStart(c, v, i);
    c.LineEnds(i);
    var room := c.pos[i + 1] - t;
    assert t + room == u;
    assert v.line(i, u) == c.LineAt(i, u) == c.price[i + 1];
    if second == 0.0 {
      assert u + second == u;
    } else {
      assert room + second - room == second;
    }
  }

  lemma SplitWithin(q: QuoteType, c: Curve, v: View, sqrt: real -> real, i: nat, t: real, now: real, first: real,
                    second: real, j: nat, u: real)
    requires IsExact(q) && c.Valid() && Shows(v, c) && c.Holds(i, t) && now == v.line(i, t) && i + 1 < |c.pos|
    requires 0.0 <= first < c.pos[i + 1] - t && second >= 0.0 && u == t + first && c.Holds(j, u)
    ensures Accepted(q, c, v, sqrt, i, t, now, first) && Accepted(q, c, v, sqrt, j, u, v.line(j, u), second) <==>
            Accepted(q, c, v, sqrt, i, t, now, first + second) && SplitCharged(IsMint(q), c, i, t, now, first, second)
  {
    c.SegmentUnique(i, u);
    c.SegmentUnique(j, u);
    c.LineEnds(i);
    var isMint, room, w := IsMint(q), c.pos[i + 1] - t, c.pos[i + 1];
    var split, end := c.LineAt(i, u), c.LineAt(i, t + (first + second));
    assert now == c.LineAt(i, t) && v.line(i, u) == split && u + second == t + (first + second);
    assert v.line(i, t + (first + second)) == end;
    if first + second <= room {
      if Chargeable(isMint, Mid(now, split)) && Chargeable(isMint, Mid(split, end)) {
        SplitInside(isMint, c, i, t, now, first, second);
      }
    } else {
      assert t + (first + (room - first)) == w;
      if Chargeable(isMint, Mid(now, split)) && Chargeable(isMint, Mid(split, c.price[i + 1])) {
        SplitInside(isMint, c, i, t, now, first, room - first);
      }
      assert first + second - room == second - (w - u);
    }
  }

  ghost predicate SplitOf(isMint: bool, c: Curve, t: real, first: real, second: real)
    requires c.Valid()
  {
    SplitCharged(isMint, c, c.Segment(t), t, c.PriceAt(t), first, second)
  }

  lemma SplitWhole(q: QuoteType, c: Curve, sqrt: real -> real, t: real, first: real, second: real)
    requires IsExact(q) && c.Valid() && IsSqrt(sqrt) && first >= 0.0 && second >= 0.0
    ensures Acceptance(q, c, sqrt)(t, first) && Acceptance(q, c, sqrt)(t + first, second) <==>
            Acceptance(q, c, sqrt)(t, first + second) && SplitOf(IsMint(q), c, t, first, second)
  {
    var i, v, u := c.Segment(t), ViewOf(c), t + first;
    var j := c.Segment(u);
    assert c.PriceAt(t) == c.LineAt(i, t) == v.line(i, t);
    SplitAccepted(q, c, v, sqrt, i, t, v.line(i, t), first, second, j, u);
    AcceptedWhen(q, c, sqrt, t, i, first);
    AcceptedWhen(q, c, sqrt, t, i, first + second);
    AcceptedWhen(q, c, sqrt, u, j, second);
  }

  /** Splitting an exact quote anywhere, and moving the issued supply by the first part, leaves the
      total as it is. Both parts are granted exactly when the whole is and the two halves of the
      segment that is split can be charged. */
  method QuoteInTwoParts(fees: Fees, q: QuoteType, first: real, second: real, stablecoinsIssued: real, other: real,
                         sqrt: real -> real)
    returns (whole: Result<real, SwapError>, part1: Result<real, SwapError>, part2: Result<real, SwapError>)
    requires IsExact(q) && IsSqrt(sqrt) && first >= 0.0 && second >= 0.0 && other > 0.0
    requires other + stablecoinsIssued > 0.0
    requires q == BurnExactInput ==> other + (stablecoinsIssued - first) > 0.0
    requires ValidTable(IsMint(q), XFees(fees, q), YFees(fees, q))
    ensures var c, t := QuoteCurve(fees, q, other), Position(IsMint(q), stablecoinsIssued);
            && (part1.Success? && part2.Success? <==> whole.Success? && SplitOf(IsMint(q), c, t, first, second))
            && (AllChargeable(IsMint(q), c, t) ==> part1.Success? && part2.Success?)
    ensures part1.Success? && part2.Success? ==> whole.value == part1.value + part2.value
  {
    ghost var c, t := QuoteCurve(fees, q, other), Position(IsMint(q), stablecoinsIssued);
    var moved := if IsMint(q) then stablecoinsIssued + first else stablecoinsIssued - first;
    assert Position(IsMint(q), moved) == t + first;
    whole := QuoteFees(fees, q, first + second, stablecoinsIssued, other, sqrt);
    part1 := QuoteFees(fees, q, first, stablecoinsIssued, other, sqrt);
    part2 := QuoteFees(fees, q, second, moved, other, sqrt);
    PartsOfWhole(q, c, sqrt, t, first, second, whole, part1, part2);
  }

  lemma PartsOfWhole(q: QuoteType, c: Curve, sqrt: real -> real, t: real, first: real, second: real,
                     whole: Result<real, SwapError>, part1: Result<real, SwapError>, part2: Result<real, SwapError>)
    requires IsExact(q) && c.Valid() && IsSqrt(sqrt) && first >= 0.0 && second >= 0.0
    requires Quoted(q, c, sqrt, t, first + second, whole)
    requires Quoted(q, c, sqrt, t, first, part1) && Quoted(q, c, sqrt, t + first, second, part2)
    ensures part1.Success? && part2.Success? <==> whole.Success? && SplitOf(IsMint(q), c, t, first, second)
    ensures AllChargeable(IsMint(q), c, t) ==> part1.Success? && part2.Success?
    ensures part1.Success? && part2.Success? ==> whole.value == part1.value + part2.value
  {
    SplitWhole(q, c, sqrt, t, first, second);
    c.CostSplits(t, first, second);
    if AllChargeable(IsMint(q), c, t) {
      ChargeableOnward(IsMint(q), c, t, first);
      AllAcceptedAt(q, c, sqrt, t, first);
      AllAcceptedAt(q, c, sqrt, t + first, second);
    }
  }

  lemma AllAcceptedAt(q: QuoteType, c: Curve, sqrt: real -> real, t: real, amount: real)
    requires c.Valid() && IsSqrt(sqrt) && amount >= 0.0 && AllChargeable(IsMint(q), c, t)
    ensures Acceptance(q, c, sqrt)(t, amount)
  {
    AcceptedWhen(q, c, sqrt, t, c.Segment(t), amount);
  }

  // ----- mint prices that are not positive -----

  /** From the last breakpoint on, a mint that pays something is answered rightly exactly when the
      price there is positive and under the limit: a fee of -100% divides by zero, and one below it
      answers with a negative amount. */
  method LastPriceDecides(fees: Fees, worth: real, stablecoinsIssued: real, other: real, sqrt: real -> real)
    returns (r: Result<real, SwapError>)
    requires IsSqrt(sqrt) && worth > 0.0 && other > 0.0 && other + stablecoinsIssued > 0.0
    requires ValidTable(true, fees.xFeeMint, fees.yFeeMint)
    requires var c := QuoteCurve(fees, MintExactInput, other); c.Segment(stablecoinsIssued) + 1 == |c.pos|
    ensures var c, t := QuoteCurve(fees, MintExactInput, other), stablecoinsIssued;
            var price := c.price[|c.pos| - 1];
            && (r.Success? && IsQuote(c, t, false, worth, r.value) <==> 0.0 < price && Chargeable(true, price))
            && (price < 0.0 ==> r.Success? && r.value < 0.0)
            && (price == 0.0 ==> r == Failure(Infinite))
  {
    ghost var c, t := QuoteCurve(fees, MintExactInput, other), stablecoinsIssued;
    r := QuoteFees(fees, MintExactInput, worth, stablecoinsIssued, other, sqrt);
    assert IsPastLast(MintExactInput, c, t, worth, r);
    assert LastPriceOf(MintExactInput, c, sqrt, t, worth) == c.price[|c.pos| - 1];
    assert IsAccepted(MintExactInput, c, sqrt, t, worth) == Chargeable(true, c.price[|c.pos| - 1]);
    if c.price[|c.pos| - 1] < 0.0 {
      Negative(r.value, c.price[|c.pos| - 1], worth);
    }
  }

  lemma Negative(r: real, p: real, worth: real)
    requires r * p == worth && worth > 0.0 && p < 0.0
    ensures r < 0.0
  {
    if r > 0.0 {
      Curve.Product(r, -p);
    }
  }
}
