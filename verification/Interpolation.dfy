/** `interpolate`: prices for new volumes from prices sampled at old ones. */
module Interpolation {

  const BI_MAX_UINT256: nat := 0x1_0000_0000_0000_0000_0000_0000_0000_0000_0000_0000_0000_0000_0000_0000_0000_0000 - 1

  datatype SwapSide = SELL | BUY

  /** No earlier price is larger. */
  predicate IsValid(prices: seq<nat>, i: nat)
    requires i < |prices|
  {
    forall j | 0 <= j < i :: prices[j] <= prices[i]
  }

  /** An independent search: the first old volume that is not below `v`. */
  function FirstNotBelow(volumes: seq<nat>, v: nat): (i: nat)
    ensures i <= |volumes|
    ensures forall j | 0 <= j < i :: volumes[j] < v
    ensures i < |volumes| ==> v <= volumes[i]
  {
    if volumes == [] || v <= volumes[0] then 0 else 1 + FirstNotBelow(volumes[1..], v)
  }

  /** The straight line between two samples, rounded down. */
  function Line(v0: nat, p0: nat, v1: nat, p1: nat, v: nat): (p: nat)
    requires v0 < v < v1 && p0 <= p1
  {
    Steps(p1 - p0, v - v0, v1 - v0);
    p0 + (p1 - p0) * (v - v0) / (v1 - v0)
  }

  /** The price of one volume, on its own. */
  function PriceOf(oldVolume: seq<nat>, oldPrices: seq<nat>, v: nat, side: SwapSide): nat
    requires |oldVolume| == |oldPrices|
  {
    var i := FirstNotBelow(oldVolume, v);
    var n := |oldPrices|;
    if v == 0 then 0
    else if i == n then
      if n == 0 || !IsValid(oldPrices, n - 1) then 0
      else if side == SELL then oldPrices[n - 1] else BI_MAX_UINT256
    else if !IsValid(oldPrices, i) then 0
    else if oldVolume[i] == v then oldPrices[i]
    else if i == 0 then Line(0, 0, oldVolume[0], oldPrices[0], v)
    else if !IsValid(oldPrices, i - 1) then 0
    else Line(oldVolume[i - 1], oldPrices[i - 1], oldVolume[i], oldPrices[i], v)
  }

  lemma FirstIs(volumes: seq<nat>, v: nat, i: nat)
    requires i <= |volumes| && (forall j | 0 <= j < i :: volumes[j] < v) && (i < |volumes| ==> v <= volumes[i])
    ensures FirstNotBelow(volumes, v) == i
  {
  }

  /** Which samples are usable: the loop keeps the largest price so far. */
  method ValidSamples(oldPrices: seq<nat>) returns (isValid: seq<bool>)
    requires oldPrices != []
    ensures |isValid| == |oldPrices| && forall i | 0 <= i < |oldPrices| :: isValid[i] == IsValid(oldPrices, i)
  {
    var maxPrice := oldPrices[0];
    isValid := [true];
    for k := 1 to |oldPrices|
      invariant |isValid| == k && forall i | 0 <= i < k :: isValid[i] == IsValid(oldPrices, i)
      invariant maxPrice in oldPrices[..k] && forall j | 0 <= j < k :: oldPrices[j] <= maxPrice
    {
      var p := oldPrices[k];
      if p >= maxPrice {
        maxPrice := p;
        isValid := isValid + [true];
      } else {
        isValid := isValid + [false];
      }
    }
  }

  /** With sorted new volumes the pointer shared by all of them finds what a search would. */
  method Interpolate(oldVolume: seq<nat>, oldPrices: seq<nat>, newVolume: seq<nat>, side: SwapSide)
    returns (prices: seq<nat>)
    requires |oldVolume| == |oldPrices|
    requires forall a, b | 0 <= a < b < |newVolume| :: newVolume[a] <= newVolume[b]
    ensures |prices| == |newVolume|
    ensures forall k | 0 <= k < |newVolume| :: prices[k] == PriceOf(oldVolume, oldPrices, newVolume[k], side)
  {
    var isValid := [true];
    if oldPrices != [] {
      isValid := ValidSamples(oldPrices);
    }
    prices := [];
    var i := 0;
    for k := 0 to |newVolume|
      invariant |prices| == k && i <= |oldVolume|
      invariant forall a | 0 <= a < k :: prices[a] == PriceOf(oldVolume, oldPrices, newVolume[a], side)
      invariant forall j, b | 0 <= j < i && k <= b < |newVolume| :: oldVolume[j] < newVolume[b]
    {
      var v := newVolume[k];
      var price := 0;
      if v != 0 {
        while i < |oldVolume| && v > oldVolume[i]
          invariant i <= |oldVolume| && forall j | 0 <= j < i :: oldVolume[j] < v
        {
          i := i + 1;
        }
        FirstIs(oldVolume, v, i);
        price := PriceAtPointer(oldVolume, oldPrices, isValid, i, v, side);
      }
      prices := prices + [price];
    }
  }

  /** The body of the map, after the pointer has moved. */
  method PriceAtPointer(oldVolume: seq<nat>, oldPrices: seq<nat>, isValid: seq<bool>, i: nat, v: nat, side: SwapSide)
    returns (price: nat)
    requires |oldVolume| == |oldPrices| && v > 0 && i == FirstNotBelow(oldVolume, v)
    requires oldPrices != [] ==>
               |isValid| == |oldPrices| && forall i | 0 <= i < |oldPrices| :: isValid[i] == IsValid(oldPrices, i)
    ensures price == PriceOf(oldVolume, oldPrices, v, side)
  {
    if i >= |oldVolume| {
      // isValid[-1] is undefined, hence falsy, when there are no samples
      var lastValid := |oldPrices| > 0 && isValid[|oldPrices| - 1];
      return if !lastValid then 0
             else if side == SELL then oldPrices[|oldPrices| - 1] else BI_MAX_UINT256;
    }
    if !isValid[i] {
      return 0;
    }
    if oldVolume[i] == v {
      return oldPrices[i];
    }
    if i > 0 && !isValid[i - 1] {
      return 0;
    }
    var lastOldVolume := if i > 0 then oldVolume[i - 1] else 0;
    var lastOldPrice := if i > 0 then oldPrices[i - 1] else 0;
    return Line(lastOldVolume, lastOldPrice, oldVolume[i], oldPrices[i], v);
  }

  // ----- lines -----

  lemma Steps(d: nat, x: nat, w: nat)
    requires w > 0
    ensures d * x / w >= 0
  {
    assert d * x >= 0;
  }

  /** `q` is a lower bound of a quotient exactly when `q * w` is one of the dividend. */
  lemma DivBound(a: nat, w: nat, q: nat)
    requires w > 0
    ensures a / w <= q <==> a < (q + 1) * w
    ensures q <= a / w <==> q * w <= a
  {
    var r := a / w;
    assert a == r * w + a % w;
    if q <= r {
      assert q * w <= r * w;
    } else {
      assert (r + 1) * w <= q * w;
    }
    if r <= q {
      assert (r + 1) * w <= (q + 1) * w;
    } else {
      assert (q + 1) * w <= r * w;
    }
  }

  /** The line stays between its ends and rises with the volume. */
  lemma LineBetween(v0: nat, p0: nat, v1: nat, p1: nat, v: nat)
    requires v0 < v < v1 && p0 <= p1
    ensures p0 <= Line(v0, p0, v1, p1, v) <= p1
  {
    var d, x, w := p1 - p0, v - v0, v1 - v0;
    Below(d, x, w);
    DivBound(d * x, w, d);
    Steps(d, x, w);
  }

  lemma Below(d: nat, x: nat, w: nat)
    requires x <= w
    ensures d * x <= d * w < (d + 1) * (w + 1)
  {
  }

  lemma LineRises(v0: nat, p0: nat, v1: nat, p1: nat, v: nat, u: nat)
    requires v0 < v <= u < v1 && p0 <= p1
    ensures Line(v0, p0, v1, p1, v) <= Line(v0, p0, v1, p1, u)
  {
    var d, w := p1 - p0, v1 - v0;
    var a, b := d * (v - v0), d * (u - v0);
    Below(d, v - v0, u - v0);
    DivBound(a, w, a / w);
    DivBound(b, w, a / w);
  }

  // ----- what the prices promise -----

  /** Sampled volumes get exactly the sampled price. */
  lemma ExactAtKnots(oldVolume: seq<nat>, oldPrices: seq<nat>, i: nat, side: SwapSide)
    requires |oldVolume| == |oldPrices| && i < |oldVolume| && oldVolume[i] > 0
    requires forall j | 0 <= j < i :: oldVolume[j] < oldVolume[i]
    ensures PriceOf(oldVolume, oldPrices, oldVolume[i], side) == if IsValid(oldPrices, i) then oldPrices[i] else 0
  {
    FirstIs(oldVolume, oldVolume[i], i);
  }

  /** Between two samples, or zero and the first one, the price is on the straight line between them,
      rounded down, on either side; it is zero when one of the two has a larger price before it. */
  lemma BetweenSamples(oldVolume: seq<nat>, oldPrices: seq<nat>, i: nat, v: nat, side: SwapSide)
    requires |oldVolume| == |oldPrices| && i < |oldVolume|
    requires 0 < v < oldVolume[i] && forall j | 0 <= j < i :: oldVolume[j] < v
    ensures var v0, p0 := if i == 0 then 0 else oldVolume[i - 1], if i == 0 then 0 else oldPrices[i - 1];
            var usable := (forall j | 0 <= j < i :: oldPrices[j] <= oldPrices[i])
                          && (i > 0 ==> forall j | 0 <= j < i - 1 :: oldPrices[j] <= oldPrices[i - 1]);
            var p := PriceOf(oldVolume, oldPrices, v, side);
            if usable then (p - p0) * (oldVolume[i] - v0) <= (oldPrices[i] - p0) * (v - v0)
                                                          < (p - p0 + 1) * (oldVolume[i] - v0)
            else p == 0
  {
    FirstIs(oldVolume, v, i);
    var v0, p0 := if i == 0 then 0 else oldVolume[i - 1], if i == 0 then 0 else oldPrices[i - 1];
    if IsValid(oldPrices, i) && (i > 0 ==> IsValid(oldPrices, i - 1)) {
      LineIs(v0, p0, oldVolume[i], oldPrices[i], v);
    }
  }

  lemma LineIs(v0: nat, p0: nat, v1: nat, p1: nat, v: nat)
    requires v0 < v < v1 && p0 <= p1
    ensures var p := Line(v0, p0, v1, p1, v);
            (p - p0) * (v1 - v0) <= (p1 - p0) * (v - v0) < (p - p0 + 1) * (v1 - v0)
  {
    var a, w := (p1 - p0) * (v - v0), v1 - v0;
    Steps(p1 - p0, v - v0, w);
    var q := a / w;
    DivBound(a, w, q);
    assert Line(v0, p0, v1, p1, v) == p0 + q;
  }

  /** Beyond the last sample a sale gets its price and a purchase the largest number there is, unless
      an earlier price is larger; a volume of zero costs nothing. */
  lemma BeyondSamples(oldVolume: seq<nat>, oldPrices: seq<nat>, v: nat, side: SwapSide)
    requires |oldVolume| == |oldPrices| && v > 0 && forall j | 0 <= j < |oldVolume| :: oldVolume[j] < v
    ensures var n := |oldPrices|;
            PriceOf(oldVolume, oldPrices, v, side) ==
            if n == 0 || exists j :: 0 <= j < n && oldPrices[j] > oldPrices[n - 1] then 0
            else if side == SELL then oldPrices[n - 1]
            else 115792089237316195423570985008687907853269984665640564039457584007913129639935
    ensures PriceOf(oldVolume, oldPrices, 0, side) == 0
  {
    FirstIs(oldVolume, v, |oldVolume|);
  }

  /** A price that is given lies between the sample before the volume and the one after it. */
  lemma PriceBracket(oldVolume: seq<nat>, oldPrices: seq<nat>, v: nat, side: SwapSide)
    requires |oldVolume| == |oldPrices| && v > 0 && PriceOf(oldVolume, oldPrices, v, side) > 0
    requires forall i | 0 <= i < |oldPrices| :: oldPrices[i] <= BI_MAX_UINT256
    ensures var i, p := FirstNotBelow(oldVolume, v), PriceOf(oldVolume, oldPrices, v, side);
            && (i < |oldPrices| ==> p <= oldPrices[i] && IsValid(oldPrices, i))
            && (forall j | 0 <= j < i :: oldPrices[j] <= p)
  {
    var i := FirstNotBelow(oldVolume, v);
    if i < |oldVolume| && oldVolume[i] != v {
      if i == 0 {
        LineBetween(0, 0, oldVolume[0], oldPrices[0], v);
      } else {
        LineBetween(oldVolume[i - 1], oldPrices[i - 1], oldVolume[i], oldPrices[i], v);
      }
    }
  }

  lemma FirstRises(volumes: seq<nat>, v: nat, u: nat)
    requires v <= u
    ensures FirstNotBelow(volumes, v) <= FirstNotBelow(volumes, u)
  {
  }

  /** Larger volumes never get a smaller price, among the volumes that get one. */
  lemma PricesRise(oldVolume: seq<nat>, oldPrices: seq<nat>, v: nat, u: nat, side: SwapSide)
    requires |oldVolume| == |oldPrices| && v <= u
    requires forall i | 0 <= i < |oldPrices| :: oldPrices[i] <= BI_MAX_UINT256
    requires PriceOf(oldVolume, oldPrices, v, side) > 0 && PriceOf(oldVolume, oldPrices, u, side) > 0
    ensures PriceOf(oldVolume, oldPrices, v, side) <= PriceOf(oldVolume, oldPrices, u, side)
  {
    var i, j := FirstNotBelow(oldVolume, v), FirstNotBelow(oldVolume, u);
    FirstRises(oldVolume, v, u);
    PriceBracket(oldVolume, oldPrices, v, side);
    PriceBracket(oldVolume, oldPrices, u, side);
    if i == j && i < |oldVolume| && u < oldVolume[i] {
      if i == 0 {
        LineRises(0, 0, oldVolume[0], oldPrices[0], v, u);
      } else {
        LineRises(oldVolume[i - 1], oldPrices[i - 1], oldVolume[i], oldPrices[i], v, u);
      }
    }
  }

  // ----- bounds against the sampled function -----

  ghost predicate Monotone(f: nat -> nat) {
    forall x: nat, y: nat {:trigger f(x), f(y)} | x <= y :: f(x) <= f(y)
  }

  /** Output functions: each further unit yields no more than the one before. */
  ghost predicate Concave(f: nat -> nat) {
    forall a: nat, b: nat, c: nat {:trigger f(a), f(b), f(c)} | a < b < c ::
      (f(c) - f(a)) * (b - a) <= (f(b) - f(a)) * (c - a)
  }

  /** Cost functions: each further unit costs no less than the one before. */
  ghost predicate Convex(f: nat -> nat) {
    forall a: nat, b: nat, c: nat {:trigger f(a), f(b), f(c)} | a < b < c ::
      (f(b) - f(a)) * (c - a) <= (f(c) - f(a)) * (b - a)
  }

  ghost predicate Samples(f: nat -> nat, oldVolume: seq<nat>, oldPrices: seq<nat>) {
    && |oldVolume| == |oldPrices| > 0
    && f(0) == 0 && Monotone(f)
    && (forall i | 0 <= i < |oldVolume| :: oldPrices[i] == f(oldVolume[i]))
    && (forall i, j | 0 <= i < j < |oldVolume| :: oldVolume[i] <= oldVolume[j])
  }

  lemma LineBelow(f: nat -> nat, v0: nat, v1: nat, v: nat)
    requires Monotone(f) && Concave(f) && v0 < v < v1
    ensures f(v0) <= f(v1) && Line(v0, f(v0), v1, f(v1), v) <= f(v)
  {
    assert f(v0) <= f(v) && f(v0) <= f(v1);
    QuotientBelow(f(v1) - f(v0), v - v0, v1 - v0, f(v) - f(v0));
  }

  lemma QuotientBelow(d: nat, x: nat, w: nat, e: nat)
    requires w > 0 && d * x <= e * w
    ensures d * x / w <= e
  {
    DivBound(d * x, w, e);
    Next(e, w);
  }

  lemma Next(q: nat, w: nat)
    requires w > 0
    ensures q * w < (q + 1) * w
  {
  }

  lemma LineAbove(f: nat -> nat, v0: nat, v1: nat, v: nat)
    requires Monotone(f) && Convex(f) && v0 < v < v1
    ensures f(v0) <= f(v1) && f(v) <= Line(v0, f(v0), v1, f(v1), v)
  {
    assert f(v0) <= f(v) && f(v0) <= f(v1);
    QuotientAbove(f(v1) - f(v0), v - v0, v1 - v0, f(v) - f(v0));
  }

  lemma QuotientAbove(d: nat, x: nat, w: nat, e: nat)
    requires w > 0 && e * w <= d * x
    ensures e <= d * x / w
  {
    DivBound(d * x, w, e);
  }

  /** Selling along samples of a concave output function never promises more than it yields. */
  lemma SellNeverOverQuotes(f: nat -> nat, oldVolume: seq<nat>, oldPrices: seq<nat>, v: nat)
    requires Samples(f, oldVolume, oldPrices) && Concave(f)
    ensures PriceOf(oldVolume, oldPrices, v, SELL) <= f(v)
  {
    var i := FirstNotBelow(oldVolume, v);
    if v > 0 && i < |oldVolume| && oldVolume[i] != v {
      LineBelow(f, if i == 0 then 0 else oldVolume[i - 1], oldVolume[i], v);
    } else if i == |oldVolume| {
      assert f(oldVolume[i - 1]) <= f(v);
    }
  }

  lemma AllUsable(f: nat -> nat, oldVolume: seq<nat>, oldPrices: seq<nat>)
    requires Samples(f, oldVolume, oldPrices)
    ensures forall k | 0 <= k < |oldPrices| :: IsValid(oldPrices, k)
  {
    forall j, k | 0 <= j < k < |oldPrices|
      ensures oldPrices[j] <= oldPrices[k]
    {
      assert f(oldVolume[j]) <= f(oldVolume[k]);
    }
  }

  /** Buying along samples of a convex cost function never asks for less than it costs. */
  lemma BuyNeverUnderQuotes(f: nat -> nat, oldVolume: seq<nat>, oldPrices: seq<nat>, v: nat)
    requires Samples(f, oldVolume, oldPrices) && Convex(f) && f(v) <= BI_MAX_UINT256
    ensures f(v) <= PriceOf(oldVolume, oldPrices, v, BUY)
  {
    var i := FirstNotBelow(oldVolume, v);
    AllUsable(f, oldVolume, oldPrices);
    if v > 0 && i < |oldVolume| && oldVolume[i] != v {
      if i == 0 {
        LineAbove(f, 0, oldVolume[0], v);
      } else {
        LineAbove(f, oldVolume[i - 1], oldVolume[i], v);
      }
    } else if v == 0 {
      assert f(v) == 0;
    }
  }
}
