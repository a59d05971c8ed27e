/** The index that ties an exchange of a price route to its parameters and flags. Three places of the
    bytecode builders compute it: a running count, a scan of the whole price route, and a scan of
    one route. */
module ExchangeIndices {
  import opened Sequences

  /** The exchanges of a swap, the swaps of a route and the routes of a price route; `E` identifies
      an exchange object. */
  type Swap<E> = seq<E>
  type Route<E> = seq<Swap<E>>
  type PriceRoute<E> = seq<Route<E>>

  function Laid<E>(price: PriceRoute<E>): (r: seq<seq<E>>)
    ensures |r| == |price| && forall i | 0 <= i < |r| :: r[i] == Flatten(price[i])
  {
    seq(|price|, i requires 0 <= i < |price| => Flatten(price[i]))
  }

  /** Every exchange in order: the order of `exchangeParams`. */
  function All<E>(price: PriceRoute<E>): seq<E> {
    Flatten(Laid(price))
  }

  predicate InRoute<E>(route: Route<E>, s: nat, e: nat) {
    s < |route| && e < |route[s]|
  }

  predicate InPrice<E>(price: PriceRoute<E>, r: nat, s: nat, e: nat) {
    r < |price| && InRoute(price[r], s, e)
  }

  function IndexInRoute<E>(route: Route<E>, s: nat, e: nat): nat
    requires InRoute(route, s, e)
  {
    |Flatten(route[..s])| + e
  }

  function Index<E>(price: PriceRoute<E>, r: nat, s: nat, e: nat): nat
    requires InPrice(price, r, s, e)
  {
    |All(price[..r])| + IndexInRoute(price[r], s, e)
  }

  lemma AllNext<E>(price: PriceRoute<E>, r: nat)
    requires r < |price|
    ensures All(price[..r + 1]) == All(price[..r]) + Flatten(price[r])
  {
    assert Laid(price[..r + 1])[..r] == Laid(price[..r]);
  }

  /** The exchange at its index is the exchange. */
  lemma ExchangeAtIndex<E>(price: PriceRoute<E>, r: nat, s: nat, e: nat)
    requires InPrice(price, r, s, e)
    ensures Index(price, r, s, e) < |All(price)| && All(price)[Index(price, r, s, e)] == price[r][s][e]
  {
    FlattenAt(price[r], s, e);
    assert Laid(price)[..r] == Laid(price[..r]);
    FlattenAt(Laid(price), r, IndexInRoute(price[r], s, e));
  }

  // ----- the running count of buildFlags -----

  method FlagsOfRoute<E, F>(route: Route<E>, r: nat, start: nat, flag: (nat, nat, nat, nat) -> F)
    returns (flags: seq<F>)
    ensures |flags| == |Flatten(route)|
    ensures forall s, e | InRoute(route, s, e) ::
              IndexInRoute(route, s, e) < |flags| &&
              flags[IndexInRoute(route, s, e)] == flag(r, s, e, start + IndexInRoute(route, s, e))
  {
    flags := [];
    var exchangeParamIndex := start;
    for s := 0 to |route|
      invariant |flags| == |Flatten(route[..s])| && exchangeParamIndex == start + |flags|
      invariant forall s': nat, e: nat | InRoute(route, s', e) && s' < s ::
                  IndexInRoute(route, s', e) < |flags| &&
                  flags[IndexInRoute(route, s', e)] == flag(r, s', e, start + IndexInRoute(route, s', e))
    {
      for e := 0 to |route[s]|
        invariant |flags| == |Flatten(route[..s])| + e && exchangeParamIndex == start + |flags|
        invariant forall s': nat, e': nat | InRoute(route, s', e') && (s' < s || (s' == s && e' < e)) ::
                    IndexInRoute(route, s', e') < |flags| &&
                    flags[IndexInRoute(route, s', e')] == flag(r, s', e', start + IndexInRoute(route, s', e'))
      {
        flags := flags + [flag(r, s, e, exchangeParamIndex)];
        exchangeParamIndex := exchangeParamIndex + 1;
      }
      FlattenNext(route, s);
    }
    assert route[..|route|] == route;
  }

  /** The flags are built with, and stored under, the index of their exchange. */
  method BuildFlags<E, F>(price: PriceRoute<E>, flag: (nat, nat, nat, nat) -> F) returns (flags: seq<F>)
    ensures |flags| == |All(price)|
    ensures forall r, s, e | InPrice(price, r, s, e) ::
              Index(price, r, s, e) < |flags| &&
              flags[Index(price, r, s, e)] == flag(r, s, e, Index(price, r, s, e))
  {
    flags := [];
    for r := 0 to |price|
      invariant |flags| == |All(price[..r])|
      invariant forall r': nat, s: nat, e: nat | InPrice(price, r', s, e) && r' < r ::
                  Index(price, r', s, e) < |flags| &&
                  flags[Index(price, r', s, e)] == flag(r', s, e, Index(price, r', s, e))
    {
      var more := FlagsOfRoute(price[r], r, |flags|, flag);
      flags := flags + more;
      AllNext(price, r);
    }
    assert price[..|price|] == price;
  }

  // ----- the scan -----

  /** The last place of an exchange, or zero. */
  function LastPlace<E(==)>(exchanges: seq<E>, cur: E): nat {
    if exchanges == [] then 0
    else
      var last := |exchanges| - 1;
      if exchanges[last] == cur then last else LastPlace(exchanges[..last], cur)
  }

  method ScanPriceRoute<E(==)>(price: PriceRoute<E>, cur: E) returns (index: nat)
    ensures index == LastPlace(All(price), cur)
  {
    index := 0;
    var swapExchangeIndex := 0;
    for r := 0 to |price|
      invariant index == LastPlace(All(price[..r]), cur) && swapExchangeIndex == |All(price[..r])|
    {
      index, swapExchangeIndex := ScanFrom(price[r], cur, index, swapExchangeIndex, All(price[..r]));
      AllNext(price, r);
    }
    assert price[..|price|] == price;
  }

  /** The loops over one route, after `before` has been scanned. */
  method ScanFrom<E(==)>(route: Route<E>, cur: E, index0: nat, count0: nat, ghost before: seq<E>)
    returns (index: nat, swapExchangeIndex: nat)
    requires index0 == LastPlace(before, cur) && count0 == |before|
    ensures index == LastPlace(before + Flatten(route), cur) && swapExchangeIndex == |before + Flatten(route)|
  {
    index, swapExchangeIndex := index0, count0;
    ghost var seen := before;
    for s := 0 to |route|
      invariant seen == before + Flatten(route[..s])
      invariant index == LastPlace(seen, cur) && swapExchangeIndex == |seen|
    {
      for e := 0 to |route[s]|
        invariant seen == before + Flatten(route[..s]) + route[s][..e]
        invariant index == LastPlace(seen, cur) && swapExchangeIndex == |seen|
      {
        if route[s][e] == cur {
          index := swapExchangeIndex;
        }
        swapExchangeIndex := swapExchangeIndex + 1;
        ghost var next := seen + [route[s][e]];
        assert next[..|seen|] == seen;
        seen := next;
      }
      FlattenNext(route, s);
      assert route[s][..|route[s]|] == route[s];
    }
    assert route[..|route|] == route;
  }

  predicate Distinct<E(==)>(exchanges: seq<E>) {
    forall i, j | 0 <= i < j < |exchanges| :: exchanges[i] != exchanges[j]
  }

  lemma {:induction false} LastPlaceOf<E>(exchanges: seq<E>, i: nat)
    requires i < |exchanges| && Distinct(exchanges)
    ensures LastPlace(exchanges, exchanges[i]) == i
  {
    var last := |exchanges| - 1;
    if i < last {
      LastPlaceOf(exchanges[..last], i);
    }
  }

  /** Of several places the last one counts; an exchange that is not there is given the first. */
  lemma {:induction false} LastPlaceIsLast<E>(exchanges: seq<E>, cur: E)
    ensures var p := LastPlace(exchanges, cur);
            if cur in exchanges then p < |exchanges| && exchanges[p] == cur && cur !in exchanges[p + 1..] else p == 0
  {
    if exchanges != [] {
      var last := |exchanges| - 1;
      LastPlaceIsLast(exchanges[..last], cur);
      assert exchanges == exchanges[..last] + [exchanges[last]];
      if exchanges[last] != cur && cur in exchanges {
        var p := LastPlace(exchanges, cur);
        assert exchanges[p + 1..] == exchanges[..last][p + 1..] + [exchanges[last]];
      }
    }
  }

  /** The scan finds an exchange at its own index when no exchange object is used twice. */
  lemma ScanAgrees<E>(price: PriceRoute<E>, r: nat, s: nat, e: nat)
    requires InPrice(price, r, s, e) && Distinct(All(price))
    ensures LastPlace(All(price), price[r][s][e]) == Index(price, r, s, e)
  {
    ExchangeAtIndex(price, r, s, e);
    LastPlaceOf(All(price), Index(price, r, s, e));
  }

  // ----- the scan of a single route -----

  method ScanRoute<E(==)>(route: Route<E>, cur: E) returns (index: nat)
    ensures index == LastPlace(Flatten(route), cur)
  {
    var count;
    index, count := ScanFrom(route, cur, 0, 0, []);
    assert [] + Flatten(route) == Flatten(route);
  }

  /** The flag of a vertical branch is chosen by the index within its own route: it names the
      exchange's parameters exactly when no earlier route has any exchange. */
  lemma RouteScanAgrees<E>(price: PriceRoute<E>, r: nat, s: nat, e: nat)
    requires InPrice(price, r, s, e) && Distinct(All(price))
    ensures LastPlace(Flatten(price[r]), price[r][s][e]) == Index(price, r, s, e) <==> All(price[..r]) == []
  {
    AllNext(price, r);
    var i := IndexInRoute(price[r], s, e);
    DistinctPart(price, r);
    FlattenAt(price[r], s, e);
    LastPlaceOf(Flatten(price[r]), i);
  }

  lemma {:induction false} AllPrefix<E>(price: PriceRoute<E>, n: nat)
    requires n <= |price|
    ensures All(price[..n]) <= All(price)
    decreases |price| - n
  {
    if n == |price| {
      assert price[..n] == price;
    } else {
      AllNext(price, n);
      AllPrefix(price, n + 1);
    }
  }

  lemma DistinctPart<E>(price: PriceRoute<E>, r: nat)
    requires r < |price| && Distinct(All(price))
    ensures Distinct(Flatten(price[r]))
  {
    AllPrefix(price, r + 1);
    AllNext(price, r);
    var before, part := All(price[..r]), Flatten(price[r]);
    forall i, j | 0 <= i < j < |part|
      ensures part[i] != part[j]
    {
      assert All(price)[|before| + i] == part[i] && All(price)[|before| + j] == part[j];
    }
  }
}
