/** A price that is linear between breakpoints and constant after the last one, and the area under
    it. Minting moves along the curve with the issued supply, burning against it. */
module FeeCurve {

  function Mid(a: real, b: real): real {
    (a + b) / 2.0
  }

  datatype Curve = Curve(pos: seq<real>, price: seq<real>) {
    ghost predicate Valid() {
      && |pos| == |price| > 0
      && forall i, j | 0 <= i < j < |pos| :: pos[i] < pos[j]
    }

    /** Segment `i` holds position `t`; the first one also holds everything before it. */
    ghost predicate Holds(i: nat, t: real)
      requires Valid()
    {
      && i < |pos|
      && (i > 0 ==> pos[i] <= t)
      && (i + 1 < |pos| ==> t < pos[i + 1])
    }

    ghost function Segment(t: real): (i: nat)
      requires Valid()
      ensures Holds(i, t)
    {
      SegmentFrom(0, t)
    }

    ghost function SegmentFrom(i: nat, t: real): (k: nat)
      requires Valid() && i < |pos| && (i > 0 ==> pos[i] <= t)
      ensures Holds(k, t)
      decreases |pos| - i
    {
      if i + 1 < |pos| && pos[i + 1] <= t then SegmentFrom(i + 1, t) else i
    }

    ghost function Slope(i: nat): real
      requires Valid() && i + 1 < |pos|
    {
      (price[i + 1] - price[i]) / (pos[i + 1] - pos[i])
    }

    /** The line of segment `i`, taken at `t`. */
    ghost function LineAt(i: nat, t: real): real
      requires Valid() && i < |pos|
    {
      if i + 1 == |pos| then price[i] else price[i] + Slope(i) * (t - pos[i])
    }

    ghost function PriceAt(t: real): real
      requires Valid()
    {
      LineAt(Segment(t), t)
    }

    /** Antiderivative of the price on segment `i`, zero at the last breakpoint. */
    ghost function AreaIn(i: nat, t: real): real
      requires Valid() && i < |pos|
      decreases |pos| - i
    {
      if i + 1 == |pos| then (t - pos[i]) * price[i]
      else AreaIn(i + 1, pos[i + 1]) - (pos[i + 1] - t) * Mid(LineAt(i, t), price[i + 1])
    }

    ghost function Area(t: real): real
      requires Valid()
    {
      AreaIn(Segment(t), t)
    }

    // The price and the area as function values: statements about a quote need not look inside them.

    ghost function PriceFunction(): (price': real -> real)
      requires Valid()
      ensures forall t {:trigger PriceAt(t)} :: price'(t) == PriceAt(t)
    {
      FunctionsExist();
      var f: real -> real :| forall t {:trigger PriceAt(t)} :: f(t) == PriceAt(t);
      f
    }

    ghost function AreaFunction(): (area: real -> real)
      requires Valid()
      ensures forall t {:trigger Area(t)} :: area(t) == Area(t)
    {
      FunctionsExist();
      var f: real -> real :| forall t {:trigger Area(t)} :: f(t) == Area(t);
      f
    }

    lemma FunctionsExist()
      requires Valid()
      ensures exists f: real -> real {:trigger f(0.0)} :: forall t {:trigger PriceAt(t)} :: f(t) == PriceAt(t)
      ensures exists f: real -> real {:trigger f(0.0)} :: forall t {:trigger Area(t)} :: f(t) == Area(t)
    {
      var price', area := (t: real) => PriceAt(t), (t: real) => Area(t);
      assert price'(0.0) == PriceAt(0.0) && area(0.0) == Area(0.0);
    }

    /** What moving from `t` by `m` costs: the area under the price between the two. */
    ghost function Cost(t: real, m: real): real
      requires Valid()
    {
      AreaFunction()(t + m) - AreaFunction()(t)
    }

    /** Every price from `t` on is positive. */
    ghost predicate PositiveFrom(t: real)
      requires Valid()
    {
      PriceFunction()(t) > 0.0 && forall i | Segment(t) < i < |price| :: price[i] > 0.0
    }

    /** Breakpoint `k` ends a segment that a move by `m` from `t` touches. */
    ghost predicate Touched(t: real, m: real, k: nat)
      requires Valid()
    {
      Segment(t) < k < |pos| && (k == Segment(t) + 1 || pos[k - 1] < t + m)
    }

    /** The price at `t` and those at the ends of the segments touched are positive. */
    ghost predicate PositiveTo(t: real, m: real)
      requires Valid()
    {
      PriceFunction()(t) > 0.0 && forall k: nat | Touched(t, m, k) :: price[k] > 0.0
    }

    lemma SegmentUnique(i: nat, t: real)
      requires Valid() && Holds(i, t)
      ensures Segment(t) == i
    {
    }

    lemma PositiveAhead(t: real, m: real)
      requires Valid() && PositiveFrom(t)
      ensures PositiveTo(t, m)
    {
    }

    lemma SegmentRises(t: real, u: real)
      requires Valid() && t <= u
      ensures Segment(t) <= Segment(u)
    {
    }

    lemma LineEnds(i: nat)
      requires Valid() && i + 1 < |pos|
      ensures LineAt(i, pos[i]) == price[i] && LineAt(i, pos[i + 1]) == price[i + 1]
    {
      Cancel(price[i + 1] - price[i], pos[i + 1] - pos[i]);
    }

    /** On one segment the area is that of the trapezoid under the two prices. */
    lemma Trapezoid(i: nat, t: real, m: real, p: real)
      requires Valid() && i < |pos| && p == Mid(LineAt(i, t), LineAt(i, t + m))
      ensures AreaIn(i, t + m) - AreaIn(i, t) == m * p
    {
      if i + 1 < |pos| {
        LineEnds(i);
        TrapezoidAlgebra(Slope(i), price[i], pos[i], pos[i + 1], t, t + m);
      }
    }

    static lemma TrapezoidAlgebra(s: real, p: real, a: real, w: real, t: real, u: real)
      ensures var x, y, f := p + s * (t - a), p + s * (u - a), p + s * (w - a);
              (w - t) * Mid(x, f) - (w - u) * Mid(y, f) == (u - t) * Mid(x, y)
    {
    }

    static lemma Cancel(x: real, y: real)
      requires y != 0.0
      ensures x / y * y == x
    {
    }

    lemma AreaMeets(i: nat)
      requires Valid() && i + 1 < |pos|
      ensures AreaIn(i, pos[i + 1]) == AreaIn(i + 1, pos[i + 1])
    {
    }

    /** The area at a position that may also be the end of its segment. */
    lemma AreaUpTo(i: nat, t: real)
      requires Valid() && i < |pos| && (i > 0 ==> pos[i] <= t)
      requires i + 1 < |pos| ==> t <= pos[i + 1]
      ensures Area(t) == AreaIn(i, t)
    {
      if i + 1 < |pos| && t == pos[i + 1] {
        AreaMeets(i);
        SegmentUnique(i + 1, t);
      } else {
        SegmentUnique(i, t);
      }
    }

    /** Within one segment the cost is the amount times the mean of the first and last price. */
    lemma CostWithin(i: nat, t: real, m: real, p: real)
      requires Valid() && Holds(i, t) && m >= 0.0
      requires i + 1 < |pos| ==> t + m <= pos[i + 1]
      requires p == Mid(LineAt(i, t), LineAt(i, t + m))
      ensures Cost(t, m) == m * p
    {
      AreaUpTo(i, t);
      AreaUpTo(i, t + m);
      Trapezoid(i, t, m, p);
    }

    /** Between two breakpoints the price lies on the straight line between theirs; before the first
        one that line is prolonged, after the last one the price stays. */
    lemma PriceOnLine(i: nat, t: real)
      requires Valid() && Holds(i, t)
      ensures i + 1 < |pos| ==>
                (PriceAt(t) - price[i]) * (pos[i + 1] - pos[i]) == (price[i + 1] - price[i]) * (t - pos[i])
      ensures i + 1 == |pos| ==> PriceAt(t) == price[i]
    {
      SegmentUnique(i, t);
      if i + 1 < |pos| {
        Proportion(Slope(i), price[i + 1] - price[i], pos[i + 1] - pos[i], t - pos[i], PriceAt(t) - price[i]);
      }
    }

    static lemma Proportion(s: real, d: real, w: real, a: real, e: real)
      requires w != 0.0 && s == d / w && e == s * a
      ensures e * w == d * a
    {
      Cancel(d, w);
      assert e * w == s * w * a;
    }

    /** A move that stays between two breakpoints costs the amount times the mean of both prices. */
    lemma CostOnSegment(i: nat, t: real, m: real)
      requires Valid() && Holds(i, t) && Holds(i, t + m) && m >= 0.0
      ensures 2.0 * Cost(t, m) == m * (PriceAt(t) + PriceAt(t + m))
    {
      SegmentUnique(i, t);
      SegmentUnique(i, t + m);
      CostWithin(i, t, m, Mid(LineAt(i, t), LineAt(i, t + m)));
    }

    /** Along a segment the price stays between any bounds on the two ends. */
    lemma LineBetween(i: nat, t: real, u: real, lo: real, hi: real)
      requires Valid() && i < |pos|
      requires lo <= LineAt(i, t) <= hi
      requires i + 1 < |pos| ==> t <= u <= pos[i + 1] && lo <= price[i + 1] <= hi
      ensures lo <= LineAt(i, u) <= hi
    {
      if i + 1 < |pos| {
        LineEnds(i);
        Convex(LineAt(i, t), price[i + 1], Slope(i), t, pos[i + 1], u, lo, hi);
      }
    }

    static lemma Convex(p: real, f: real, s: real, a: real, w: real, t: real, lo: real, hi: real)
      requires a <= t <= w && f == p + s * (w - a)
      requires lo <= p <= hi && lo <= f <= hi
      ensures lo <= p + s * (t - a) <= hi
    {
      if s >= 0.0 {
        assert 0.0 <= s * (t - a) <= s * (w - a);
      } else {
        assert 0.0 >= s * (t - a) >= s * (w - a);
      }
    }

    lemma NextPrice(i: nat)
      requires Valid() && i + 1 < |pos|
      ensures PriceAt(pos[i + 1]) == price[i + 1]
    {
      SegmentUnique(i + 1, pos[i + 1]);
      if i + 2 < |pos| {
        LineEnds(i + 1);
      }
    }

    /** Splitting a move does not change its cost, wherever the split falls. */
    lemma CostSplits(t: real, m1: real, m2: real)
      requires Valid()
      ensures Cost(t, m1 + m2) == Cost(t, m1) + Cost(t + m1, m2)
    {
      assert t + (m1 + m2) == t + m1 + m2;
    }

    /** The present price and those of the breakpoints ahead lie between two bounds. */
    ghost predicate BoundedFrom(t: real, lo: real, hi: real)
      requires Valid()
    {
      lo <= PriceAt(t) <= hi && forall i | Segment(t) < i < |price| :: lo <= price[i] <= hi
    }

    /** Mean value: a price between `lo` and `hi` all the way keeps the cost between the two rates. */
    lemma {:induction false} CostBetween(t: real, m: real, lo: real, hi: real)
      requires Valid() && m >= 0.0 && BoundedFrom(t, lo, hi)
      ensures lo * m <= Cost(t, m) <= hi * m
      decreases |pos| - Segment(t)
    {
      var i := Segment(t);
      if i + 1 < |pos| && pos[i + 1] < t + m {
        var w := pos[i + 1];
        var m1, m2 := w - t, t + m - w;
        CostBetweenWithin(i, t, m1, lo, hi);
        SegmentUnique(i + 1, w);
        NextPrice(i);
        CostBetween(w, m2, lo, hi);
        CostSplits(t, m1, m2);
        assert t + m1 == w && m1 + m2 == m;
        Sum(lo, hi, m1, Cost(t, m1), m2, Cost(w, m2), m, Cost(t, m));
      } else {
        CostBetweenWithin(i, t, m, lo, hi);
      }
    }

    static lemma Sum(lo: real, hi: real, m1: real, c1: real, m2: real, c2: real, m: real, c: real)
      requires lo * m1 <= c1 <= hi * m1 && lo * m2 <= c2 <= hi * m2
      requires m == m1 + m2 && c == c1 + c2
      ensures lo * m <= c <= hi * m
    {
    }

    lemma CostBetweenWithin(i: nat, t: real, m: real, lo: real, hi: real)
      requires Valid() && Holds(i, t) && m >= 0.0
      requires lo <= LineAt(i, t) <= hi
      requires i + 1 < |pos| ==> t + m <= pos[i + 1] && lo <= price[i + 1] <= hi
      ensures lo * m <= Cost(t, m) <= hi * m
    {
      var p := Mid(LineAt(i, t), LineAt(i, t + m));
      CostWithin(i, t, m, p);
      LineBetween(i, t, t + m, lo, hi);
      Scale(Cost(t, m), m, p, lo, hi);
    }

    static lemma Scale(cost: real, m: real, p: real, lo: real, hi: real)
      requires m >= 0.0 && lo <= p <= hi && cost == m * p
      ensures lo * m <= cost <= hi * m
    {
    }

    /** Bounds on the present price and on the breakpoints ahead hold all along the curve. */
    lemma PriceOnward(t: real, m: real, lo: real, hi: real)
      requires Valid() && m >= 0.0 && BoundedFrom(t, lo, hi)
      ensures BoundedFrom(t + m, lo, hi)
    {
      var i, j := Segment(t), Segment(t + m);
      SegmentRises(t, t + m);
      if i == j {
        LineBetween(i, t, t + m, lo, hi);
      } else {
        assert i < j;
        if j + 1 < |pos| {
          LineEnds(j);
        }
        LineBetween(j, pos[j], t + m, lo, hi);
      }
    }

    /** The least and the greatest price ahead. */
    lemma BoundsFrom(t: real) returns (lo: real, hi: real)
      requires Valid()
      ensures BoundedFrom(t, lo, hi)
      ensures lo == PriceAt(t) || exists i :: Segment(t) < i < |price| && price[i] == lo
      ensures hi == PriceAt(t) || exists i :: Segment(t) < i < |price| && price[i] == hi
    {
      var k := Segment(t) + 1;
      lo, hi := Bounds(price[k..], PriceAt(t));
      forall i | k <= i < |price|
        ensures lo <= price[i] <= hi
      {
        assert price[i] == price[k..][i - k];
      }
      if lo != PriceAt(t) {
        var j :| 0 <= j < |price[k..]| && price[k..][j] == lo;
        assert price[k + j] == lo;
      }
      if hi != PriceAt(t) {
        var j :| 0 <= j < |price[k..]| && price[k..][j] == hi;
        assert price[k + j] == hi;
      }
    }

    static lemma {:induction false} Bounds(prices: seq<real>, first: real) returns (lo: real, hi: real)
      ensures lo <= first <= hi && forall i | 0 <= i < |prices| :: lo <= prices[i] <= hi
      ensures (lo == first || lo in prices) && (hi == first || hi in prices)
    {
      if prices == [] {
        lo, hi := first, first;
      } else {
        lo, hi := Bounds(prices[1..], first);
        forall i | 0 <= i < |prices|
          ensures i == 0 || lo <= prices[i] <= hi
        {
          assert i == 0 || prices[i] == prices[1..][i - 1];
        }
        lo := if prices[0] < lo then prices[0] else lo;
        hi := if prices[0] > hi then prices[0] else hi;
      }
    }

    /** On a segment that ends above zero, a positive price stays positive. */
    lemma PositiveLine(i: nat, t: real, u: real)
      requires Valid() && i < |pos| && LineAt(i, t) > 0.0
      requires i + 1 < |pos| ==> t <= u <= pos[i + 1] && price[i + 1] > 0.0
      ensures LineAt(i, u) > 0.0
    {
      if i + 1 < |pos| {
        var g, f := LineAt(i, t), price[i + 1];
        LineBetween(i, t, u, if g < f then g else f, if g < f then f else g);
      }
    }

    lemma PriceAtBreak(j: nat)
      requires Valid() && j < |pos|
      ensures LineAt(j, pos[j]) == price[j]
    {
      if j + 1 < |pos| {
        LineEnds(j);
      }
    }

    /** Prices that are positive all the way are so from any point before the end. */
    lemma PositiveOnward(t: real, m1: real, m: real)
      requires Valid() && PositiveTo(t, m) && 0.0 <= m1 < m
      ensures PositiveTo(t + m1, m - m1)
    {
      var i, j, u := Segment(t), Segment(t + m1), t + m1;
      SegmentRises(t, u);
      assert PriceAt(t) > 0.0;
      assert u + (m - m1) == t + m;
      forall k: nat | j < k < |pos| && (k == j + 1 || pos[k - 1] < t + m)
        ensures price[k] > 0.0
      {
        assert Touched(t, m, k);
      }
      if i == j {
        PositiveLine(j, t, u);
      } else {
        assert Touched(t, m, j);
        PriceAtBreak(j);
        PositiveLine(j, pos[j], u);
      }
      assert PriceAt(u) > 0.0;
    }

    /** A move over positive prices costs something. */
    lemma {:induction false} CostPositive(t: real, m: real)
      requires Valid() && PositiveTo(t, m) && m > 0.0
      ensures Cost(t, m) > 0.0
      decreases |pos| - Segment(t)
    {
      var i := Segment(t);
      assert PriceAt(t) > 0.0;
      if i + 1 < |pos| {
        assert Touched(t, m, i + 1);
      }
      if i + 1 < |pos| && pos[i + 1] < t + m {
        var w := pos[i + 1];
        CostPositiveWithin(i, t, w - t);
        PositiveOnward(t, w - t, m);
        SegmentUnique(i + 1, w);
        assert t + (w - t) == w;
        CostPositive(w, m - (w - t));
        CostSplits(t, w - t, m - (w - t));
        assert w - t + (m - (w - t)) == m;
      } else {
        CostPositiveWithin(i, t, m);
      }
    }

    lemma CostPositiveWithin(i: nat, t: real, m: real)
      requires Valid() && Holds(i, t) && m > 0.0 && LineAt(i, t) > 0.0
      requires i + 1 < |pos| ==> t + m <= pos[i + 1] && price[i + 1] > 0.0
      ensures Cost(t, m) > 0.0
    {
      PositiveLine(i, t, t + m);
      var p := Mid(LineAt(i, t), LineAt(i, t + m));
      CostWithin(i, t, m, p);
      Product(m, p);
    }

    /** With positive prices a larger move costs strictly more. */
    lemma CostIncreasing(t: real, m1: real, m2: real)
      requires Valid() && PositiveTo(t, m2) && 0.0 <= m1 < m2
      ensures Cost(t, m1) < Cost(t, m2)
    {
      PositiveOnward(t, m1, m2);
      CostPositive(t + m1, m2 - m1);
      CostSplits(t, m1, m2 - m1);
      assert m1 + (m2 - m1) == m2;
    }

    lemma CostNonNegative(t: real, m: real)
      requires Valid() && PositiveTo(t, m) && m >= 0.0
      ensures Cost(t, m) >= 0.0
    {
      if m > 0.0 {
        CostPositive(t, m);
      } else {
        assert t + m == t;
      }
    }

    /** No breakpoint passed by a move of `r` is reached at that cost or more. */
    ghost predicate ReachedFirst(t: real, cost: real, r: real)
      requires Valid()
    {
      forall k: nat | Segment(t) < k < |pos| && pos[k] < t + r :: Cost(t, pos[k] - t) < cost
    }

    /** The first move of a given cost is the only one, as far as prices are positive. */
    lemma FirstCostInjective(t: real, m: real, r: real)
      requires Valid() && PositiveTo(t, m) && m >= 0.0 && r >= 0.0
      requires Cost(t, r) == Cost(t, m) && ReachedFirst(t, Cost(t, m), r)
      ensures r == m
    {
      if r < m {
        CostIncreasing(t, r, m);
      } else if m < r {
        forall k: nat | Touched(t, r, k)
          ensures price[k] > 0.0
        {
          if !Touched(t, m, k) {
            NotPassed(t, m, r, k - 1);
          }
        }
        CostIncreasing(t, m, r);
      }
    }

    /** The first breakpoint at or past the end of a move over positive prices costs no less. */
    lemma NotPassed(t: real, m: real, r: real, k: nat)
      requires Valid() && PositiveTo(t, m) && 0.0 <= m
      requires Segment(t) < k < |pos| && t + m <= pos[k] < t + r
      ensures !ReachedFirst(t, Cost(t, m), r)
    {
      var i, j := Segment(t), Segment(t + m);
      SegmentRises(t, t + m);
      var e := if j > i && pos[j] == t + m then j else j + 1;
      assert e <= k && t + m <= pos[e];
      forall l: nat | Touched(t, pos[e] - t, l)
        ensures price[l] > 0.0
      {
        assert t + (pos[e] - t) == pos[e];
        assert l <= e;
        assert Touched(t, m, l);
      }
      if t + m < pos[e] {
        CostIncreasing(t, m, pos[e] - t);
      } else {
        assert pos[e] - t == m;
      }
      assert Cost(t, pos[e] - t) >= Cost(t, m);
      assert pos[e] < t + r;
    }

    static lemma Product(x: real, y: real)
      requires x > 0.0 && y > 0.0
      ensures x * y > 0.0
    {
    }
  }
}
