/** `convertToBasisPoints`: integer parts of 10000 in proportion to a distribution. */
module BasisPoints {

  const BPS := 10000

  ghost function Sum(xs: seq<real>): real {
    if xs == [] then 0.0 else Sum(xs[..|xs| - 1]) + xs[|xs| - 1]
  }

  ghost function SumInt(xs: seq<int>): int {
    if xs == [] then 0 else SumInt(xs[..|xs| - 1]) + xs[|xs| - 1]
  }

  /** `Math.round`: the nearest integer, halves upwards. */
  function Round(x: real): (r: int)
    ensures -0.5 < r as real - x <= 0.5
  {
    (x + 0.5).Floor
  }

  ghost function Share(dist: seq<real>, i: nat): real
    requires i < |dist| && Sum(dist) > 0.0
  {
    dist[i] * BPS as real / Sum(dist)
  }

  lemma {:induction false} SumNonNegative(xs: seq<real>)
    requires forall i | 0 <= i < |xs| :: xs[i] >= 0.0
    ensures Sum(xs) >= 0.0
  {
    if xs != [] {
      SumNonNegative(xs[..|xs| - 1]);
    }
  }

  lemma {:induction false} SumScaled(xs: seq<real>, ys: seq<real>, k: real)
    requires |xs| == |ys| && forall i | 0 <= i < |xs| :: ys[i] == xs[i] * k
    ensures Sum(ys) == Sum(xs) * k
  {
    if xs != [] {
      SumScaled(xs[..|xs| - 1], ys[..|ys| - 1], k);
    }
  }

  /** How far rounding has moved an entry in the wrong direction; entries owed most come first. */
  function Key(up: bool, start: int, share: real): real {
    if up then start as real - share else share - start as real
  }

  lemma {:induction false} SumKeys(start: seq<int>, shares: seq<real>, up: bool, key: seq<real>)
    requires |start| == |shares| == |key|
    requires forall i | 0 <= i < |key| :: key[i] == Key(up, start[i], shares[i])
    ensures Sum(key) == if up then SumInt(start) as real - Sum(shares) else Sum(shares) - SumInt(start) as real
  {
    if key != [] {
      SumKeys(start[..|key| - 1], shares[..|key| - 1], up, key[..|key| - 1]);
    }
  }

  lemma {:induction false} SumIntUpdate(xs: seq<int>, i: nat, y: int)
    requires i < |xs|
    ensures SumInt(xs[i := y]) == SumInt(xs) - xs[i] + y
  {
    var ys := xs[i := y];
    if i < |xs| - 1 {
      assert ys[..|xs| - 1] == xs[..|xs| - 1][i := y];
      SumIntUpdate(xs[..|xs| - 1], i, y);
    } else {
      assert ys[..|xs| - 1] == xs[..|xs| - 1];
    }
  }

  /** Only indices in `s` may hold negative keys, and none below a half: a bound on the sum. */
  lemma {:induction false} SumLower(key: seq<real>, s: set<nat>)
    requires forall i | 0 <= i < |key| :: key[i] >= if i in s then -0.5 else 0.0
    ensures Sum(key) >= -0.5 * |s| as real
  {
    if key != [] {
      var last := |key| - 1;
      SumLower(key[..last], s - {last});
    }
  }

  lemma {:induction false} SetOfPrefix(order: seq<nat>) returns (s: set<nat>)
    ensures |s| <= |order| && forall i :: i in s <==> i in order
  {
    if order == [] {
      s := {};
    } else {
      s := SetOfPrefix(order[1..]);
      s := s + {order[0]};
    }
  }

  // ----- sorting -----

  /** `order` lists the first `n` indices by increasing key, equal ones as they stand. */
  ghost predicate Ranks(order: seq<nat>, key: seq<real>, n: nat)
    requires n <= |key|
  {
    && |order| == n
    && (forall p | 0 <= p < n :: order[p] < n)
    && (forall p, q | 0 <= p < q < n :: Precedes(key, order[p], order[q]))
    && (forall i | 0 <= i < n :: i in order)
  }

  ghost predicate Precedes(key: seq<real>, i: nat, j: nat)
    requires i < |key| && j < |key|
  {
    key[i] < key[j] || (key[i] == key[j] && i < j)
  }

  ghost predicate Ranking(order: seq<nat>, key: seq<real>) {
    Ranks(order, key, |key|)
  }

  lemma InsertRanked(order: seq<nat>, key: seq<real>, n: nat, at: nat)
    requires n < |key| && Ranks(order, key, n) && at <= n
    requires forall p | 0 <= p < at :: key[order[p]] <= key[n]
    requires forall q | at <= q < n :: key[n] < key[order[q]]
    ensures Ranks(order[..at] + [n] + order[at..], key, n + 1)
  {
    var after := order[..at] + [n] + order[at..];
    forall i | 0 <= i < n + 1
      ensures i in after
    {
      if i < n {
        assert i in order;
        var p :| 0 <= p < n && order[p] == i;
        assert after[if p < at then p else p + 1] == i;
      } else {
        assert after[at] == n;
      }
    }
  }

  /** `errors.sort`: the indices by increasing key. */
  method SortErrors(key: seq<real>) returns (order: seq<nat>)
    ensures Ranking(order, key)
  {
    order := [];
    for n := 0 to |key|
      invariant Ranks(order, key, n)
    {
      var at := n;
      while at > 0 && key[order[at - 1]] > key[n]
        invariant 0 <= at <= n
        invariant forall q | at <= q < n :: key[n] < key[order[q]]
      {
        at := at - 1;
      }
      InsertRanked(order, key, n, at);
      order := order[..at] + [n] + order[at..];
    }
  }

  /** The keys sum to minus the number of units to hand out: there are enough entries, and every
      entry that is given a unit has a negative key. */
  lemma ChosenAreNegative(key: seq<real>, order: seq<nat>, units: nat)
    requires Ranking(order, key) && Sum(key) == -(units as real)
    requires forall i | 0 <= i < |key| :: key[i] >= -0.5
    ensures units <= |key|
    ensures forall p | 0 <= p < units :: key[order[p]] < 0.0
  {
    var everything := SetOfPrefix(order);
    SumLower(key, everything);
    forall p | 0 <= p < units
      ensures key[order[p]] < 0.0
    {
      if key[order[p]] >= 0.0 {
        FewNegative(key, order, p);
      }
    }
  }

  lemma FewNegative(key: seq<real>, order: seq<nat>, p: nat)
    requires Ranking(order, key) && p < |key| && key[order[p]] >= 0.0
    requires forall i | 0 <= i < |key| :: key[i] >= -0.5
    ensures Sum(key) >= -0.5 * p as real
  {
    var s := SetOfPrefix(order[..p]);
    forall i | 0 <= i < |key|
      ensures key[i] >= if i in s then -0.5 else 0.0
    {
      assert i in order;
      var q :| 0 <= q < |order| && order[q] == i;
      if q < p {
        assert order[..p][q] == i;
      }
    }
    SumLower(key, s);
  }

  // ----- the conversion -----

  /** What the result promises. */
  ghost predicate Apportions(dist: seq<real>, parts: seq<int>)
    requires Sum(dist) > 0.0
  {
    && |parts| == |dist|
    && SumInt(parts) == BPS
    && (forall i | 0 <= i < |dist| :: parts[i] >= 0)
    && (forall i | 0 <= i < |dist| :: -1.0 < parts[i] as real - Share(dist, i) < 1.0)
    && (forall i, j | 0 <= i < |dist| && 0 <= j < |dist| && dist[i] < dist[j] :: parts[i] <= parts[j])
  }

  /** The shares of 10000 in exact proportion. */
  ghost function ExactParts(dist: seq<real>): (r: seq<real>)
    requires Sum(dist) > 0.0
    ensures |r| == |dist| && forall i | 0 <= i < |dist| :: r[i] == dist[i] * 10000.0 / Sum(dist)
  {
    seq(|dist|, i requires 0 <= i < |dist| => dist[i] * 10000.0 / Sum(dist))
  }

  /** Each share is rounded to the nearest integer; what the sum then lacks of 10000 is handed out, and
      what it exceeds is taken back, one unit at a time from the entries furthest off, the earlier of
      two that are equally far off first. */
  ghost predicate Corrects(shares: seq<real>, parts: seq<int>) {
    |parts| == |shares|
    && exists start: seq<int>, key: seq<real>, order: seq<nat> :: CorrectedBy(shares, parts, start, key, order)
  }

  ghost predicate CorrectedBy(shares: seq<real>, parts: seq<int>, start: seq<int>, key: seq<real>, order: seq<nat>) {
    && |parts| == |start| == |shares| == |key|
    && (forall i | 0 <= i < |shares| :: -0.5 < start[i] as real - shares[i] <= 0.5)
    && var total := SumInt(start);
       && (forall i | 0 <= i < |shares| ::
             key[i] == if total < 10000 then start[i] as real - shares[i] else shares[i] - start[i] as real)
       && Ranking(order, key)
       && (forall p | 0 <= p < |order| ::
             parts[order[p]] == start[order[p]] + if total < 10000 && p < 10000 - total then 1
                                                  else if total > 10000 && p < total - 10000 then -1 else 0)
  }

  /** Moves the first `units` ranked entries by `delta`. */
  lemma NextServed(order: seq<nat>, i: nat)
    requires i < |order| && forall p, q | 0 <= p < q < |order| :: order[p] != order[q]
    ensures order[i] !in order[..i] && forall k :: k in order[..i + 1] <==> k in order[..i] || k == order[i]
  {
    assert order[..i + 1] == order[..i] + [order[i]];
  }

  method Adjust(rounded: array<int>, order: seq<nat>, units: nat, delta: int)
    requires units <= |order| && forall p | 0 <= p < |order| :: order[p] < rounded.Length
    requires forall p, q | 0 <= p < q < |order| :: order[p] != order[q]
    modifies rounded
    ensures SumInt(rounded[..]) == SumInt(old(rounded[..])) + units * delta
    ensures forall k | 0 <= k < rounded.Length ::
              rounded[k] == old(rounded[k]) + if k in order[..units] then delta else 0
  {
    for i := 0 to units
      invariant SumInt(rounded[..]) == SumInt(old(rounded[..])) + i * delta
      invariant forall k | 0 <= k < rounded.Length ::
                  rounded[k] == old(rounded[k]) + if k in order[..i] then delta else 0
    {
      var k := order[i];
      NextServed(order, i);
      ghost var before := rounded[..];
      SumIntUpdate(before, k, before[k] + delta);
      rounded[k] := rounded[k] + delta;
      assert rounded[..] == before[k := before[k] + delta];
    }
  }

  method ConvertToBasisPoints(dist: seq<real>) returns (rounded: array<int>)
    requires forall i | 0 <= i < |dist| :: dist[i] >= 0.0
    requires Sum(dist) > 0.0
    ensures SumInt(rounded[..]) == 10000 && Apportions(dist, rounded[..])
    ensures Corrects(ExactParts(dist), rounded[..])
  {
    var sumDist := 0.0;
    for i := 0 to |dist|
      invariant sumDist == Sum(dist[..i])
    {
      assert dist[..i + 1][..i] == dist[..i];
      sumDist := sumDist + dist[i];
    }
    assert dist[..|dist|] == dist;
    var basisPoints := seq(|dist|, i requires 0 <= i < |dist| => dist[i] * BPS as real / sumDist);
    ExactShares(dist, basisPoints);
    rounded := new int[|dist|](i requires 0 <= i < |dist| => Round(basisPoints[i]));
    var sumRounded := 0;
    for i := 0 to rounded.Length
      invariant sumRounded == SumInt(rounded[..i])
    {
      assert rounded[..i + 1][..i] == rounded[..i];
      sumRounded := sumRounded + rounded[i];
    }
    assert rounded[..rounded.Length] == rounded[..];
    CorrectRounding(rounded, basisPoints, sumRounded, dist);
    assert basisPoints == ExactParts(dist);
  }

  /** The rest of the function: hands out, or takes back, one unit at a time. */
  method CorrectRounding(rounded: array<int>, basisPoints: seq<real>, sumRounded: int, ghost dist: seq<real>)
    requires Sum(dist) > 0.0 && forall i | 0 <= i < |dist| :: dist[i] >= 0.0
    requires |basisPoints| == |dist| && forall i | 0 <= i < |dist| :: basisPoints[i] == Share(dist, i)
    requires Sum(basisPoints) == BPS as real
    requires Rounds(basisPoints, rounded[..]) && sumRounded == SumInt(rounded[..])
    modifies rounded
    ensures Apportions(dist, rounded[..]) && Corrects(basisPoints, rounded[..])
  {
    ghost var start := rounded[..];
    if sumRounded == BPS {
      AdjustedApportions(dist, basisPoints, start, true, 0, [], start);
      NothingToCorrect(basisPoints, start);
      return;
    }
    var up := sumRounded < BPS;
    var errors := seq(|basisPoints|, i requires 0 <= i < |basisPoints| && i < rounded.Length reads rounded =>
      Key(up, rounded[i], basisPoints[i]));
    var order := SortErrors(errors);
    if up {
      UnitsAreFew(basisPoints, start, errors, order, true, BPS - sumRounded);
      Adjust(rounded, order, BPS - sumRounded, 1);
    } else {
      UnitsAreFew(basisPoints, start, errors, order, false, sumRounded - BPS);
      Adjust(rounded, order, sumRounded - BPS, -1);
    }
    AdjustedApportions(dist, basisPoints, start, up, if up then BPS - sumRounded else sumRounded - BPS, order,
                       rounded[..]);
    UnitsCorrect(basisPoints, start, errors, order, up, if up then BPS - sumRounded else sumRounded - BPS, rounded[..]);
  }

  lemma UnitsCorrect(shares: seq<real>, start: seq<int>, key: seq<real>, order: seq<nat>, up: bool, units: nat,
                     parts: seq<int>)
    requires Rounds(shares, start) && |key| == |shares| == |parts| && Ranking(order, key) && units <= |order|
    requires SumInt(start) == (if up then BPS - units else BPS + units) && units > 0
    requires forall i | 0 <= i < |key| :: key[i] == Key(up, start[i], shares[i])
    requires forall i | 0 <= i < |parts| ::
               parts[i] == start[i] + if i !in order[..units] then 0 else if up then 1 else -1
    ensures Corrects(shares, parts)
  {
    forall p | 0 <= p < |order|
      ensures order[p] in order[..units] <==> p < units
    {
      if p < units {
        assert order[..units][p] == order[p];
      }
    }
    assert CorrectedBy(shares, parts, start, key, order);
  }

  /** A sum that is exact leaves every rounded share as it is. */
  lemma NothingToCorrect(shares: seq<real>, start: seq<int>)
    requires Rounds(shares, start) && SumInt(start) == BPS
    ensures Corrects(shares, start)
  {
    var key := seq(|shares|, i requires 0 <= i < |shares| => shares[i] - start[i] as real);
    var order := RankingExists(key, |key|);
    assert CorrectedBy(shares, start, start, key, order);
  }

  lemma {:induction false} RankingExists(key: seq<real>, n: nat) returns (order: seq<nat>)
    requires n <= |key|
    ensures Ranks(order, key, n)
  {
    if n == 0 {
      order := [];
    } else {
      order := RankingExists(key, n - 1);
      var at := InsertionPoint(order, key, n - 1);
      InsertRanked(order, key, n - 1, at);
      order := order[..at] + [n - 1] + order[at..];
    }
  }

  lemma InsertionPoint(order: seq<nat>, key: seq<real>, n: nat) returns (at: nat)
    requires n < |key| && Ranks(order, key, n)
    ensures at <= n
    ensures forall p | 0 <= p < at :: key[order[p]] <= key[n]
    ensures forall q | at <= q < n :: key[n] < key[order[q]]
  {
    at := n;
    while at > 0 && key[order[at - 1]] > key[n]
      invariant 0 <= at <= n
      invariant forall q | at <= q < n :: key[n] < key[order[q]]
    {
      at := at - 1;
    }
  }

  ghost predicate Rounds(shares: seq<real>, start: seq<int>) {
    |start| == |shares| && forall i | 0 <= i < |shares| :: start[i] == Round(shares[i])
  }

  /** The units still missing, or in excess, never outnumber the entries to take them from. */
  lemma UnitsAreFew(shares: seq<real>, start: seq<int>, key: seq<real>, order: seq<nat>, up: bool, units: nat)
    requires Rounds(shares, start) && |key| == |shares| && Ranking(order, key)
    requires Sum(shares) == BPS as real && SumInt(start) == if up then BPS - units else BPS + units
    requires forall i | 0 <= i < |key| :: key[i] == Key(up, start[i], shares[i])
    ensures units <= |key| && Served(order, shares, start, up, units)
  {
    SumKeys(start, shares, up, key);
    ChosenAreNegative(key, order, units);
  }

  /** Each index once, those with the smaller key first, and the first `units` have negative keys. */
  ghost predicate Served(order: seq<nat>, shares: seq<real>, start: seq<int>, up: bool, units: nat)
    requires |start| == |shares|
  {
    && units <= |order| == |shares|
    && (forall p | 0 <= p < |order| :: order[p] < |shares|)
    && (forall p, q | 0 <= p < q < |order| ::
          order[p] != order[q] &&
          Key(up, start[order[p]], shares[order[p]]) <= Key(up, start[order[q]], shares[order[q]]))
    && (forall i | 0 <= i < |shares| :: i in order)
    && (forall p | 0 <= p < units :: Key(up, start[order[p]], shares[order[p]]) < 0.0)
  }

  lemma AdjustedApportions(dist: seq<real>, shares: seq<real>, start: seq<int>, up: bool, units: nat,
                           order: seq<nat>, parts: seq<int>)
    requires Sum(dist) > 0.0 && forall i | 0 <= i < |dist| :: dist[i] >= 0.0
    requires |shares| == |dist| && forall i | 0 <= i < |dist| :: shares[i] == Share(dist, i)
    requires Rounds(shares, start) && units <= |order|
    requires units > 0 ==> Served(order, shares, start, up, units)
    requires |parts| == |start| && SumInt(parts) == BPS
    requires forall i | 0 <= i < |parts| ::
               parts[i] == start[i] + if i !in order[..units] then 0 else if up then 1 else -1
    ensures Apportions(dist, parts)
  {
    ExactShares(dist, shares);
    forall i | 0 <= i < |dist|
      ensures parts[i] >= 0 && -1.0 < parts[i] as real - shares[i] < 1.0
    {
      if i in order[..units] {
        var p :| 0 <= p < units && order[p] == i;
      }
    }
    forall i, j | 0 <= i < |dist| && 0 <= j < |dist| && dist[i] < dist[j]
      ensures parts[i] <= parts[j]
    {
      if start[i] == start[j] {
        SameStart(shares, start, up, units, order, i, j);
      }
    }
  }

  /** Of two entries rounded alike, the one owed more is served first. */
  lemma SameStart(shares: seq<real>, start: seq<int>, up: bool, units: nat, order: seq<nat>, i: nat, j: nat)
    requires |start| == |shares| && i < |shares| && j < |shares| && start[i] == start[j] && shares[i] < shares[j]
    requires units <= |order| && (units > 0 ==> Served(order, shares, start, up, units))
    ensures up && i in order[..units] ==> j in order[..units]
    ensures !up && j in order[..units] ==> i in order[..units]
  {
    if units > 0 {
      assert i in order && j in order;
      var p :| 0 <= p < |order| && order[p] == i;
      var q :| 0 <= q < |order| && order[q] == j;
      assert p < |order[..units]| ==> order[..units][p] == i;
      assert q < |order[..units]| ==> order[..units][q] == j;
    }
  }

  /** Exact shares sum to 10000, are not negative, and keep the order of the distribution. */
  lemma ExactShares(dist: seq<real>, shares: seq<real>)
    requires Sum(dist) > 0.0 && forall i | 0 <= i < |dist| :: dist[i] >= 0.0
    requires |shares| == |dist| && forall i | 0 <= i < |dist| :: shares[i] == Share(dist, i)
    ensures Sum(shares) == BPS as real
    ensures forall i | 0 <= i < |dist| :: shares[i] >= 0.0
    ensures forall i, j | 0 <= i < |dist| && 0 <= j < |dist| && dist[i] < dist[j] :: shares[i] < shares[j]
  {
    var k := Proportion(dist, shares);
    ScaledShares(dist, shares, k);
  }

  lemma Proportion(dist: seq<real>, shares: seq<real>) returns (k: real)
    requires Sum(dist) > 0.0
    requires |shares| == |dist| && forall i | 0 <= i < |dist| :: shares[i] == Share(dist, i)
    ensures k > 0.0 && Sum(dist) * k == BPS as real
    ensures forall i | 0 <= i < |dist| :: shares[i] == dist[i] * k
  {
    k := Ratio(BPS as real, Sum(dist));
    forall i | 0 <= i < |dist|
      ensures shares[i] == dist[i] * k
    {
      Quotients(dist[i], BPS as real, Sum(dist), shares[i], k);
    }
  }

  lemma {:induction false} ScaledShares(dist: seq<real>, shares: seq<real>, k: real)
    requires k > 0.0 && Sum(dist) * k == BPS as real && forall i | 0 <= i < |dist| :: dist[i] >= 0.0
    requires |shares| == |dist| && forall i | 0 <= i < |dist| :: shares[i] == dist[i] * k
    ensures Sum(shares) == BPS as real
    ensures forall i | 0 <= i < |dist| :: shares[i] >= 0.0
    ensures forall i, j | 0 <= i < |dist| && 0 <= j < |dist| && dist[i] < dist[j] :: shares[i] < shares[j]
  {
    SumScaled(dist, shares, k);
    forall i | 0 <= i < |dist|
      ensures shares[i] >= 0.0
    {
      Scaled(dist[i], dist[i], k, shares[i], shares[i]);
    }
    forall i, j | 0 <= i < |dist| && 0 <= j < |dist| && dist[i] < dist[j]
      ensures shares[i] < shares[j]
    {
      Scaled(dist[i], dist[j], k, shares[i], shares[j]);
    }
  }

  lemma Ratio(b: real, s: real) returns (k: real)
    requires s > 0.0 && b > 0.0
    ensures s * k == b && k > 0.0
  {
    k := b / s;
  }

  lemma Scaled(x: real, y: real, k: real, a: real, b: real)
    requires k > 0.0 && x >= 0.0 && a == x * k && b == y * k
    ensures a >= 0.0 && (x < y ==> a < b)
  {
    if x < y {
      assert (y - x) * k > 0.0;
    }
  }

  lemma Quotients(d: real, b: real, s: real, share: real, k: real)
    requires s > 0.0 && share == d * b / s && s * k == b
    ensures share == d * k
  {
    assert share * s == d * b;
    assert (share - d * k) * s == 0.0;
  }
}
