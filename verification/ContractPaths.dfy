/** `PayloadEncoder.getAdapters` and `getContractPathsWithNetworkFee`: the exchanges of a swap,
    grouped into one contract call per adapter. */
module ContractPaths {
  import opened Wrappers
  import opened Text
  import opened AdapterAssignment
  import BasisPoints

  /** What the DEX of an exchange encodes for it (`getAdapterParam`). */
  datatype Param = Param(targetExchange: string, payload: string, networkFee: int)

  datatype SwapExchange = SwapExchange(exchange: string, percent: real, param: Param)

  datatype Route<+P> = Route(param: Param, index: nat, percent: P)

  type RawRoute = Route<int>

  datatype ContractAdapter<+P> = ContractAdapter(adapter: string, percent: int, networkFee: int, route: seq<Route<P>>)

  type RawAdapter = ContractAdapter<int>

  /** A percentage that came out as a number, or as "NaN". */
  type FixedAdapter = ContractAdapter<Option<int>>

  /** `toFixed(0)` of a number that is not negative. */
  function ToFixed0(x: real): (r: int)
    requires x >= 0.0
    ensures r >= 0
  {
    BasisPoints.Round(x)
  }

  /** Adding a percentage to a rounded total and rounding again only rounds the percentage. */
  lemma RoundedSum(n: int, x: real)
    requires n >= 0 && x >= 0.0
    ensures ToFixed0(n as real + x) == n + ToFixed0(x)
  {
  }

  // ----- sums -----

  function Sum(routes: seq<RawRoute>, v: RawRoute -> int): int {
    if routes == [] then 0 else Sum(routes[..|routes| - 1], v) + v(routes[|routes| - 1])
  }

  function Fee(r: RawRoute): int {
    r.param.networkFee
  }

  function Percent(r: RawRoute): int {
    r.percent
  }

  lemma SumSnoc(routes: seq<RawRoute>, r: RawRoute, v: RawRoute -> int)
    ensures Sum(routes + [r], v) == Sum(routes, v) + v(r)
  {
    assert (routes + [r])[..|routes|] == routes;
  }

  predicate NonNegative(routes: seq<RawRoute>) {
    forall i | 0 <= i < |routes| :: routes[i].percent >= 0
  }

  lemma {:induction false} PercentsNonNegative(routes: seq<RawRoute>)
    requires NonNegative(routes)
    ensures Sum(routes, Percent) >= 0
    ensures Sum(routes, Percent) == 0 <==> forall i | 0 <= i < |routes| :: routes[i].percent == 0
  {
    if routes != [] {
      PercentsNonNegative(routes[..|routes| - 1]);
    }
  }

  // ----- grouping by adapter -----

  /** The routes whose adapter is the one asked for. */
  function Pick(names: seq<string>, routes: seq<RawRoute>, adapter: string): seq<RawRoute>
    requires |names| == |routes|
  {
    if names == [] then []
    else
      var last := |names| - 1;
      Pick(names[..last], routes[..last], adapter) + if names[last] == adapter then [routes[last]] else []
  }

  /** Where they stand. */
  function Positions(names: seq<string>, adapter: string): seq<nat> {
    if names == [] then []
    else
      var last := |names| - 1;
      Positions(names[..last], adapter) + if names[last] == adapter then [last] else []
  }

  /** The routes of an adapter keep their order, and each position is in one group and no other. */
  lemma {:induction false} PickKeepsOrder(names: seq<string>, routes: seq<RawRoute>, adapter: string)
    requires |names| == |routes|
    ensures var at, picked := Positions(names, adapter), Pick(names, routes, adapter);
            && |at| == |picked|
            && (forall j | 0 <= j < |at| :: at[j] < |names| && picked[j] == routes[at[j]])
            && (forall j, k | 0 <= j < k < |at| :: at[j] < at[k])
            && (forall i: nat | i < |names| :: i in at <==> names[i] == adapter)
  {
    if names != [] {
      var last := |names| - 1;
      PickKeepsOrder(names[..last], routes[..last], adapter);
    }
  }

  /** The routes through one adapter, their percentages and their network fees added up. */
  function Group(names: seq<string>, routes: seq<RawRoute>, adapter: string): RawAdapter
    requires |names| == |routes|
  {
    var picked := Pick(names, routes, adapter);
    ContractAdapter(adapter, Sum(picked, Percent), Sum(picked, Fee), picked)
  }

  /** One group per adapter, in the order the adapters are first used. */
  function Groups(names: seq<string>, routes: seq<RawRoute>): (r: seq<RawAdapter>)
    requires |names| == |routes|
    ensures |r| == |Firsts(names)| && forall i | 0 <= i < |r| :: r[i] == Group(names, routes, Firsts(names)[i])
  {
    var keys := Firsts(names);
    seq(|keys|, i requires 0 <= i < |keys| => Group(names, routes, keys[i]))
  }

  /** The place of an exchange: its route is in the group of its adapter, and in no other place. */
  lemma EachInOneRoute(names: seq<string>, routes: seq<RawRoute>, i: nat) returns (g: nat, j: nat)
    requires |names| == |routes| && i < |names|
    ensures g < |Groups(names, routes)| && Groups(names, routes)[g].adapter == names[i]
    ensures j < |Positions(names, names[i])| && Positions(names, names[i])[j] == i
    ensures j < |Groups(names, routes)[g].route| && Groups(names, routes)[g].route[j] == routes[i]
    ensures forall g', j' | 0 <= g' < |Firsts(names)| && 0 <= j' < |Positions(names, Firsts(names)[g'])| ::
              Positions(names, Firsts(names)[g'])[j'] == i ==> g' == g && j' == j
  {
    FirstsAreNames(names);
    assert names[i] in Firsts(names);
    g :| 0 <= g < |Firsts(names)| && Firsts(names)[g] == names[i];
    PickKeepsOrder(names, routes, names[i]);
    j :| 0 <= j < |Positions(names, names[i])| && Positions(names, names[i])[j] == i;
    forall g', j' | 0 <= g' < |Firsts(names)| && 0 <= j' < |Positions(names, Firsts(names)[g'])|
      ensures Positions(names, Firsts(names)[g'])[j'] == i ==> g' == g && j' == j
    {
      PickKeepsOrder(names, routes, Firsts(names)[g']);
      if Positions(names, Firsts(names)[g'])[j'] == i {
        assert Firsts(names)[g'] == names[i];
      }
    }
  }

  /** Some quantity added up within each group, and then over the groups. */
  function GroupSum(keys: seq<string>, names: seq<string>, routes: seq<RawRoute>, v: RawRoute -> int): int
    requires |names| == |routes|
  {
    if keys == [] then 0
    else GroupSum(keys[..|keys| - 1], names, routes, v) + Sum(Pick(names, routes, keys[|keys| - 1]), v)
  }

  lemma PickNext(names: seq<string>, routes: seq<RawRoute>, name: string, r: RawRoute, adapter: string)
    requires |names| == |routes|
    ensures Pick(names + [name], routes + [r], adapter) ==
            Pick(names, routes, adapter) + if name == adapter then [r] else []
  {
    assert (names + [name])[..|names|] == names && (routes + [r])[..|routes|] == routes;
  }

  lemma {:induction false} PickNone(names: seq<string>, routes: seq<RawRoute>, adapter: string)
    requires |names| == |routes| && adapter !in names
    ensures Pick(names, routes, adapter) == []
  {
    if names != [] {
      PickNone(names[..|names| - 1], routes[..|names| - 1], adapter);
    }
  }

  /** A further route changes the sum of its own group only. */
  lemma {:induction false} GroupSumNext(keys: seq<string>, names: seq<string>, routes: seq<RawRoute>, name: string,
                                        r: RawRoute, v: RawRoute -> int)
    requires |names| == |routes| && forall i, j | 0 <= i < j < |keys| :: keys[i] != keys[j]
    ensures GroupSum(keys, names + [name], routes + [r], v) ==
            GroupSum(keys, names, routes, v) + if name in keys then v(r) else 0
  {
    if keys != [] {
      var last := |keys| - 1;
      assert keys == keys[..last] + [keys[last]];
      GroupSumNext(keys[..last], names, routes, name, r, v);
      PickNext(names, routes, name, r, keys[last]);
      SumSnoc(Pick(names, routes, keys[last]), r, v);
      assert keys[last] !in keys[..last];
      assert Pick(names, routes, keys[last]) + [] == Pick(names, routes, keys[last]);
    }
  }

  lemma GroupSumSnoc(keys: seq<string>, key: string, names: seq<string>, routes: seq<RawRoute>, v: RawRoute -> int)
    requires |names| == |routes|
    ensures GroupSum(keys + [key], names, routes, v) ==
            GroupSum(keys, names, routes, v) + Sum(Pick(names, routes, key), v)
  {
    assert (keys + [key])[..|keys|] == keys;
  }

  lemma GroupsConserveNext(names: seq<string>, routes: seq<RawRoute>, name: string, r: RawRoute, v: RawRoute -> int)
    requires |names| == |routes|
    ensures GroupSum(Firsts(names + [name]), names + [name], routes + [r], v) ==
            GroupSum(Firsts(names), names, routes, v) + v(r)
  {
    var keys := Firsts(names);
    FirstsAreNames(names);
    FirstsNext(names, name);
    GroupSumNext(keys, names, routes, name, r, v);
    if name !in keys {
      GroupSumSnoc(keys, name, names + [name], routes + [r], v);
      PickNone(names, routes, name);
      PickNext(names, routes, name, r, name);
      SumSnoc([], r, v);
      assert [] + [r] == [r];
    }
  }

  /** Adding up any quantity adapter by adapter gives its total over all exchanges. */
  lemma {:induction false} GroupsConserve(names: seq<string>, routes: seq<RawRoute>, v: RawRoute -> int)
    requires |names| == |routes|
    ensures GroupSum(Firsts(names), names, routes, v) == Sum(routes, v)
  {
    if names != [] {
      var last := |names| - 1;
      assert names == names[..last] + [names[last]];
      assert routes == routes[..last] + [routes[last]];
      GroupsConserve(names[..last], routes[..last], v);
      GroupsConserveNext(names[..last], routes[..last], names[last], routes[last], v);
    }
  }

  function FeesOf<P>(adapters: seq<ContractAdapter<P>>): int {
    if adapters == [] then 0 else FeesOf(adapters[..|adapters| - 1]) + adapters[|adapters| - 1].networkFee
  }

  lemma {:induction false} FeesOfGroups(keys: seq<string>, names: seq<string>, routes: seq<RawRoute>,
                                        adapters: seq<FixedAdapter>)
    requires |names| == |routes| && |adapters| == |keys|
    requires forall i | 0 <= i < |keys| :: adapters[i].networkFee == Sum(Pick(names, routes, keys[i]), Fee)
    ensures FeesOf(adapters) == GroupSum(keys, names, routes, Fee)
  {
    if keys != [] {
      FeesOfGroups(keys[..|keys| - 1], names, routes, adapters[..|keys| - 1]);
    }
  }

  // ----- percentages of one adapter -----

  ghost function Dist(raw: seq<RawRoute>): (r: seq<real>)
    ensures |r| == |raw| && forall i | 0 <= i < |r| :: r[i] == raw[i].percent as real
  {
    seq(|raw|, i requires 0 <= i < |raw| => raw[i].percent as real)
  }

  lemma {:induction false} DistSum(raw: seq<RawRoute>)
    ensures BasisPoints.Sum(Dist(raw)) == Sum(raw, Percent) as real
  {
    if raw != [] {
      DistSum(raw[..|raw| - 1]);
      assert Dist(raw)[..|raw| - 1] == Dist(raw[..|raw| - 1]);
    }
  }

  function Parts(fixed: seq<Route<Option<int>>>): (r: seq<int>)
    ensures |r| == |fixed| && forall i | 0 <= i < |r| :: r[i] == fixed[i].percent.GetOr(0)
  {
    seq(|fixed|, i requires 0 <= i < |fixed| => fixed[i].percent.GetOr(0))
  }

  /** The same routes, with percentages that sum to exactly 10000; `None` is the "NaN" that comes of
      dividing by a sum of zero. */
  ghost predicate Fixes(raw: seq<RawRoute>, fixed: seq<Route<Option<int>>>) {
    && |raw| == |fixed|
    && (forall i | 0 <= i < |raw| :: fixed[i].param == raw[i].param && fixed[i].index == raw[i].index)
    && (forall i | 0 <= i < |raw| :: fixed[i].percent.None? <==> Sum(raw, Percent) == 0)
    && (Sum(raw, Percent) != 0 ==>
          && BasisPoints.Sum(Dist(raw)) > 0.0
          && BasisPoints.Apportions(Dist(raw), Parts(fixed))
          && BasisPoints.Corrects(BasisPoints.ExactParts(Dist(raw)), Parts(fixed)))
  }

  method FixPercents(raw: seq<RawRoute>) returns (fixed: seq<Route<Option<int>>>)
    requires NonNegative(raw)
    ensures Fixes(raw, fixed)
  {
    PercentsNonNegative(raw);
    DistSum(raw);
    if Sum(raw, Percent) == 0 {
      return seq(|raw|, i requires 0 <= i < |raw| => Route(raw[i].param, raw[i].index, None));
    }
    var rawPercent := seq(|raw|, i requires 0 <= i < |raw| => raw[i].percent as real);
    assert rawPercent == Dist(raw);
    var parts := BasisPoints.ConvertToBasisPoints(rawPercent);
    var fixedPercent := parts[..];
    fixed := seq(|raw|, i requires 0 <= i < |raw| => Route(raw[i].param, raw[i].index, Some(fixedPercent[i])));
    assert Parts(fixed) == fixedPercent;
  }

  ghost predicate FixesAdapter(group: RawAdapter, out: FixedAdapter) {
    && out.adapter == group.adapter && out.percent == group.percent && out.networkFee == group.networkFee
    && Fixes(group.route, out.route)
  }

  ghost predicate FixesAll(groups: seq<RawAdapter>, out: seq<FixedAdapter>) {
    |groups| == |out| && forall i | 0 <= i < |groups| :: FixesAdapter(groups[i], out[i])
  }

  // ----- the adapters of one swap -----

  function Exchanges(swaps: seq<SwapExchange>): (r: seq<string>)
    ensures |r| == |swaps| && forall i | 0 <= i < |r| :: r[i] == swaps[i].exchange
  {
    seq(|swaps|, i requires 0 <= i < |swaps| => swaps[i].exchange)
  }

  /** The name and the route an assignment gives every exchange. */
  ghost predicate Routed(m: Assignment, swaps: seq<SwapExchange>, names: seq<string>, routes: seq<RawRoute>) {
    && |names| == |routes| == |swaps|
    && forall i | 0 <= i < |swaps| :: IsRoute(m, swaps[i], names[i], routes[i])
  }

  ghost predicate IsRoute(m: Assignment, se: SwapExchange, name: string, route: RawRoute) {
    && Lower(se.exchange) in m && se.percent >= 0.0
    && var config := m[Lower(se.exchange)]; name == config.adapter && route == RouteOf(config, se)
  }

  function RouteOf(config: Config, se: SwapExchange): RawRoute
    requires se.percent >= 0.0
  {
    Route(se.param, config.index, ToFixed0(se.percent * 100.0))
  }

  /** Every exchange is assigned, and its percentage is not negative. */
  predicate Covers(m: Assignment, swaps: seq<SwapExchange>) {
    forall i | 0 <= i < |swaps| :: Lower(swaps[i].exchange) in m && swaps[i].percent >= 0.0
  }

  function AdapterNames(m: Assignment, swaps: seq<SwapExchange>): (names: seq<string>)
    requires Covers(m, swaps)
    ensures |names| == |swaps| && forall i | 0 <= i < |swaps| :: names[i] == m[Lower(swaps[i].exchange)].adapter
  {
    seq(|swaps|, i requires 0 <= i < |swaps| => m[Lower(swaps[i].exchange)].adapter)
  }

  function RoutesGiven(m: Assignment, swaps: seq<SwapExchange>): (routes: seq<RawRoute>)
    requires Covers(m, swaps)
    ensures |routes| == |swaps|
    ensures forall i | 0 <= i < |swaps| :: routes[i] == RouteOf(m[Lower(swaps[i].exchange)], swaps[i])
  {
    seq(|swaps|, i requires 0 <= i < |swaps| => RouteOf(m[Lower(swaps[i].exchange)], swaps[i]))
  }

  lemma RoutedIs(m: Assignment, swaps: seq<SwapExchange>, names: seq<string>, routes: seq<RawRoute>)
    requires Routed(m, swaps, names, routes)
    ensures Covers(m, swaps) && names == AdapterNames(m, swaps) && routes == RoutesGiven(m, swaps)
  {
    assert forall i | 0 <= i < |swaps| :: IsRoute(m, swaps[i], names[i], routes[i]);
  }

  predicate Percentages(swaps: seq<SwapExchange>) {
    forall i | 0 <= i < |swaps| :: swaps[i].percent >= 0.0
  }

  ghost predicate Collected(keys: seq<string>, table: map<string, RawAdapter>, names: seq<string>,
                            routes: seq<RawRoute>) {
    && |names| == |routes| && keys == Firsts(names)
    && (forall k :: k in table <==> k in keys)
    && (forall k | k in table :: table[k] == Group(names, routes, k))
  }

  /** The entry of an adapter, created empty when there is none. */
  function Entry(table: map<string, RawAdapter>, name: string): RawAdapter {
    if name in table then table[name] else ContractAdapter(name, 0, 0, [])
  }

  /** A group with one more route. */
  function Extended(g: RawAdapter, r: RawRoute): RawAdapter {
    ContractAdapter(g.adapter, g.percent + r.percent, g.networkFee + r.param.networkFee, g.route + [r])
  }

  lemma GroupNext(names: seq<string>, routes: seq<RawRoute>, name: string, r: RawRoute, k: string)
    requires |names| == |routes|
    ensures Group(names + [name], routes + [r], k) ==
            if name == k then Extended(Group(names, routes, k), r) else Group(names, routes, k)
  {
    var picked := Pick(names, routes, k);
    PickNext(names, routes, name, r, k);
    SumSnoc(picked, r, Percent);
    SumSnoc(picked, r, Fee);
    assert picked + [] == picked;
  }

  lemma CollectedNext(keys: seq<string>, table: map<string, RawAdapter>, names: seq<string>, routes: seq<RawRoute>,
                      name: string, r: RawRoute, keys': seq<string>, table': map<string, RawAdapter>)
    requires Collected(keys, table, names, routes)
    requires keys' == if name in table then keys else keys + [name]
    requires table' == table[name := Extended(Entry(table, name), r)]
    ensures Collected(keys', table', names + [name], routes + [r])
  {
    FirstsNext(names, name);
    EntryIsGroup(keys, table, names, routes, name);
    forall k | k in table'
      ensures table'[k] == Group(names + [name], routes + [r], k)
    {
      GroupNext(names, routes, name, r, k);
    }
  }

  lemma EntryIsGroup(keys: seq<string>, table: map<string, RawAdapter>, names: seq<string>, routes: seq<RawRoute>,
                     name: string)
    requires Collected(keys, table, names, routes)
    ensures Entry(table, name) == Group(names, routes, name)
  {
    FirstsAreNames(names);
    if name !in table {
      PickNone(names, routes, name);
    }
  }

  /** One pass of the loop. */
  method CollectOne(config: Config, se: SwapExchange, keys0: seq<string>, table0: map<string, RawAdapter>,
                    ghost names: seq<string>, ghost routes: seq<RawRoute>)
    returns (keys: seq<string>, table: map<string, RawAdapter>)
    requires se.percent >= 0.0 && Collected(keys0, table0, names, routes) && NonNegative(routes)
    ensures Collected(keys, table, names + [config.adapter], routes + [RouteOf(config, se)])
  {
    var name := config.adapter;
    keys := if name in table0 then keys0 else keys0 + [name];
    EntryNonNegative(keys0, table0, names, routes, name);
    var next := AddRoute(Entry(table0, name), config, se);
    table := table0[name := next];
    CollectedNext(keys0, table0, names, routes, name, RouteOf(config, se), keys, table);
  }

  method AddRoute(entry: RawAdapter, config: Config, se: SwapExchange) returns (next: RawAdapter)
    requires entry.percent >= 0 && se.percent >= 0.0
    ensures next == Extended(entry, RouteOf(config, se))
  {
    var percent := se.percent * 100.0;
    RoundedSum(entry.percent, percent);
    var route := Route(se.param, config.index, ToFixed0(percent));
    next := ContractAdapter(entry.adapter, ToFixed0(entry.percent as real + percent),
                            entry.networkFee + route.param.networkFee, entry.route + [route]);
  }

  lemma EntryNonNegative(keys: seq<string>, table: map<string, RawAdapter>, names: seq<string>, routes: seq<RawRoute>,
                         name: string)
    requires Collected(keys, table, names, routes) && NonNegative(routes)
    ensures Entry(table, name).percent >= 0 && Entry(table, name).adapter == name
  {
    EntryIsGroup(keys, table, names, routes, name);
    PickedNonNegative(names, routes, name);
    PercentsNonNegative(Pick(names, routes, name));
  }

  /** The loop of `getAdapters`; `names` and `routes` record what it has gone through. */
  method CollectAdapters(m: Assignment, swaps: seq<SwapExchange>)
    returns (keys: seq<string>, table: map<string, RawAdapter>)
    requires Covers(m, swaps)
    ensures Collected(keys, table, AdapterNames(m, swaps), RoutesGiven(m, swaps))
    ensures NonNegative(RoutesGiven(m, swaps))
  {
    keys, table := [], map[];
    ghost var names: seq<string>, routes: seq<RawRoute> := [], [];
    for i := 0 to |swaps|
      invariant Routed(m, swaps[..i], names, routes) && NonNegative(routes)
      invariant Collected(keys, table, names, routes)
    {
      var config := m[Lower(swaps[i].exchange)];
      keys, table := CollectOne(config, swaps[i], keys, table, names, routes);
      RoutedNext(m, swaps, i, names, routes, config);
      names, routes := names + [config.adapter], routes + [RouteOf(config, swaps[i])];
    }
    assert swaps[..|swaps|] == swaps;
    RoutedIs(m, swaps, names, routes);
  }

  lemma RoutedNext(m: Assignment, swaps: seq<SwapExchange>, i: nat, names: seq<string>, routes: seq<RawRoute>,
                   config: Config)
    requires i < |swaps| && Routed(m, swaps[..i], names, routes) && swaps[i].percent >= 0.0
    requires Lower(swaps[i].exchange) in m && config == m[Lower(swaps[i].exchange)]
    ensures Routed(m, swaps[..i + 1], names + [config.adapter], routes + [RouteOf(config, swaps[i])])
  {
    assert swaps[..i + 1] == swaps[..i] + [swaps[i]];
    assert IsRoute(m, swaps[i], config.adapter, RouteOf(config, swaps[i]));
  }

  lemma {:induction false} PickedNonNegative(names: seq<string>, routes: seq<RawRoute>, adapter: string)
    requires |names| == |routes| && NonNegative(routes)
    ensures NonNegative(Pick(names, routes, adapter))
  {
    if names != [] {
      PickedNonNegative(names[..|names| - 1], routes[..|names| - 1], adapter);
    }
  }

  /** All the network fees the exchanges of a swap ask for. */
  function NetworkFees(exchanges: seq<SwapExchange>): int {
    if exchanges == [] then 0
    else NetworkFees(exchanges[..|exchanges| - 1]) + exchanges[|exchanges| - 1].param.networkFee
  }

  lemma {:induction false} RouteFees(exchanges: seq<SwapExchange>, routes: seq<RawRoute>)
    requires |routes| == |exchanges| && forall i | 0 <= i < |routes| :: routes[i].param == exchanges[i].param
    ensures Sum(routes, Fee) == NetworkFees(exchanges)
  {
    if exchanges != [] {
      RouteFees(exchanges[..|exchanges| - 1], routes[..|exchanges| - 1]);
    }
  }

  /** The contract calls for a swap under an assignment. */
  ghost predicate Serve(adapters: seq<FixedAdapter>, m: Assignment, swaps: seq<SwapExchange>) {
    Covers(m, swaps) && FixesAll(Groups(AdapterNames(m, swaps), RoutesGiven(m, swaps)), adapters)
  }

  method GetAdapters(s: Service, swaps: seq<SwapExchange>) returns (r: Result<seq<FixedAdapter>, AssignError>)
    requires Percentages(swaps)
    ensures Assign(s, Exchanges(swaps), Sell).Failure? ==> r == Failure(Assign(s, Exchanges(swaps), Sell).error)
    ensures Assign(s, Exchanges(swaps), Sell).Success? ==>
              r.Success? && Serve(r.value, Assign(s, Exchanges(swaps), Sell).value, swaps)
    ensures r.Success? ==> FeesOf(r.value) == NetworkFees(swaps)
  {
    var found := GetOptimalExchangeAdapterMap(s, Exchanges(swaps), Sell);
    if found.Failure? {
      return Failure(found.error);
    }
    var m := found.value;
    AssignIsOwn(s, Exchanges(swaps), Sell, m);
    forall i | 0 <= i < |swaps|
      ensures Lower(swaps[i].exchange) in m
    {
      assert Exchanges(swaps)[i] in Exchanges(swaps);
    }
    var adapters := AdaptersUnder(m, swaps);
    r := Success(adapters);
  }

  method AdaptersUnder(m: Assignment, swaps: seq<SwapExchange>) returns (adapters: seq<FixedAdapter>)
    requires Covers(m, swaps)
    ensures Serve(adapters, m, swaps) && FeesOf(adapters) == NetworkFees(swaps)
  {
    var keys, table := CollectAdapters(m, swaps);
    ghost var names, routes := AdapterNames(m, swaps), RoutesGiven(m, swaps);
    adapters := FixAdapters(keys, table, names, routes);
    FeesOfGroups(keys, names, routes, adapters);
    GroupsConserve(names, routes, Fee);
    RouteFees(swaps, routes);
  }

  method FixAdapters(keys: seq<string>, table: map<string, RawAdapter>, ghost names: seq<string>,
                     ghost routes: seq<RawRoute>)
    returns (adapters: seq<FixedAdapter>)
    requires Collected(keys, table, names, routes) && NonNegative(routes)
    ensures FixesAll(Groups(names, routes), adapters)
  {
    adapters := [];
    ghost var groups := Groups(names, routes);
    for i := 0 to |keys|
      invariant FixesAll(groups[..i], adapters)
    {
      PickedNonNegative(names, routes, keys[i]);
      assert groups[i] == Group(names, routes, keys[i]) == table[keys[i]];
      var out := FixAdapter(table[keys[i]]);
      FixesNext(groups, i, adapters, out);
      adapters := adapters + [out];
    }
    assert groups[..|keys|] == groups;
  }

  lemma FixesNext(groups: seq<RawAdapter>, i: nat, adapters: seq<FixedAdapter>, out: FixedAdapter)
    requires i < |groups| && FixesAll(groups[..i], adapters) && FixesAdapter(groups[i], out)
    ensures FixesAll(groups[..i + 1], adapters + [out])
  {
  }

  method FixAdapter(ca: RawAdapter) returns (out: FixedAdapter)
    requires NonNegative(ca.route)
    ensures FixesAdapter(ca, out)
  {
    var fixed := FixPercents(ca.route);
    out := ContractAdapter(ca.adapter, ca.percent, ca.networkFee, fixed);
  }

  // ----- what the calls contain -----

  /** Every exchange stands in the call of the adapter it is assigned to, with what its DEX encodes and
      the index configured for it. */
  lemma ExchangeServed(adapters: seq<FixedAdapter>, m: Assignment, swaps: seq<SwapExchange>, i: nat)
    returns (g: nat, j: nat)
    requires Serve(adapters, m, swaps) && i < |swaps|
    ensures g < |adapters| && adapters[g].adapter == m[Lower(swaps[i].exchange)].adapter
    ensures j < |adapters[g].route| && adapters[g].route[j].param == swaps[i].param
    ensures adapters[g].route[j].index == m[Lower(swaps[i].exchange)].index
  {
    var names, routes := AdapterNames(m, swaps), RoutesGiven(m, swaps);
    g, j := EachInOneRoute(names, routes, i);
    assert FixesAdapter(Groups(names, routes)[g], adapters[g]);
  }

  /** The calls stand in the order in which their adapters are first needed: before exchange `p`, which
      the earlier of two calls serves, no exchange is served by the later one. */
  lemma CallsInOrder(adapters: seq<FixedAdapter>, m: Assignment, swaps: seq<SwapExchange>, g: nat, h: nat)
    returns (p: nat)
    requires Serve(adapters, m, swaps) && g < h < |adapters|
    ensures p < |swaps| && m[Lower(swaps[p].exchange)].adapter == adapters[g].adapter
    ensures forall k | 0 <= k <= p :: m[Lower(swaps[k].exchange)].adapter != adapters[h].adapter
  {
    var names, routes := AdapterNames(m, swaps), RoutesGiven(m, swaps);
    var groups := Groups(names, routes);
    assert FixesAdapter(groups[g], adapters[g]) && FixesAdapter(groups[h], adapters[h]);
    FirstsAreNames(names);
    p := FirstsInOrder(names, g, h);
    forall k | 0 <= k <= p
      ensures names[k] != adapters[h].adapter
    {
      assert k < p ==> names[..p][k] == names[k];
    }
  }

  /** Within a call they keep the order of the exchanges. */
  lemma RoutesInOrder(adapters: seq<FixedAdapter>, m: Assignment, swaps: seq<SwapExchange>, g: nat, i: nat, j: nat)
    returns (p: nat, q: nat)
    requires Serve(adapters, m, swaps) && g < |adapters| && i < j < |adapters[g].route|
    ensures p < q < |swaps|
    ensures adapters[g].route[i].param == swaps[p].param && adapters[g].route[j].param == swaps[q].param
    ensures m[Lower(swaps[p].exchange)].adapter == m[Lower(swaps[q].exchange)].adapter == adapters[g].adapter
  {
    var names, routes := AdapterNames(m, swaps), RoutesGiven(m, swaps);
    assert FixesAdapter(Groups(names, routes)[g], adapters[g]);
    PickKeepsOrder(names, routes, adapters[g].adapter);
    var at := Positions(names, adapters[g].adapter);
    p, q := at[i], at[j];
    assert p in at && q in at;
  }

  function PercentsOf<P>(adapters: seq<ContractAdapter<P>>): int {
    if adapters == [] then 0 else PercentsOf(adapters[..|adapters| - 1]) + adapters[|adapters| - 1].percent
  }

  /** A hundred times each percentage, rounded to the nearest integer. */
  function RoundedPercents(swaps: seq<SwapExchange>): int {
    if swaps == [] then 0
    else RoundedPercents(swaps[..|swaps| - 1]) + (swaps[|swaps| - 1].percent * 100.0 + 0.5).Floor
  }

  lemma {:induction false} PercentsOfGroups(keys: seq<string>, names: seq<string>, routes: seq<RawRoute>,
                                            adapters: seq<FixedAdapter>)
    requires |names| == |routes| && |adapters| == |keys|
    requires forall i | 0 <= i < |keys| :: adapters[i].percent == Sum(Pick(names, routes, keys[i]), Percent)
    ensures PercentsOf(adapters) == GroupSum(keys, names, routes, Percent)
  {
    if keys != [] {
      PercentsOfGroups(keys[..|keys| - 1], names, routes, adapters[..|keys| - 1]);
    }
  }

  lemma {:induction false} RoutePercents(m: Assignment, swaps: seq<SwapExchange>, routes: seq<RawRoute>)
    requires Covers(m, swaps) && |routes| == |swaps|
    requires forall i | 0 <= i < |routes| :: routes[i] == RouteOf(m[Lower(swaps[i].exchange)], swaps[i])
    ensures Sum(routes, Percent) == RoundedPercents(swaps)
  {
    if swaps != [] {
      RoutePercents(m, swaps[..|swaps| - 1], routes[..|swaps| - 1]);
    }
  }

  /** The percentages of the calls add up to those of the exchanges, each rounded on its own. */
  lemma PercentsConserved(adapters: seq<FixedAdapter>, m: Assignment, swaps: seq<SwapExchange>)
    requires Serve(adapters, m, swaps)
    ensures PercentsOf(adapters) == RoundedPercents(swaps)
  {
    var names, routes := AdapterNames(m, swaps), RoutesGiven(m, swaps);
    var keys := Firsts(names);
    forall i | 0 <= i < |keys|
      ensures adapters[i].percent == Sum(Pick(names, routes, keys[i]), Percent)
    {
      assert FixesAdapter(Groups(names, routes)[i], adapters[i]);
    }
    PercentsOfGroups(keys, names, routes, adapters);
    GroupsConserve(names, routes, Percent);
    RoutePercents(m, swaps, routes);
  }

  /** A swap through a single exchange is one call that gives it everything. */
  lemma SingleExchange(adapters: seq<FixedAdapter>, m: Assignment, se: SwapExchange)
    requires Serve(adapters, m, [se]) && se.percent == 100.0
    ensures var config := m[Lower(se.exchange)];
            adapters == [ContractAdapter(config.adapter, 10000, se.param.networkFee,
                                         [Route(se.param, config.index, Some(10000))])]
  {
    var config := m[Lower(se.exchange)];
    var names, routes := AdapterNames(m, [se]), RoutesGiven(m, [se]);
    var r := RouteOf(config, se);
    assert [se][0] == se;
    assert names == [config.adapter] && routes == [r];
    OneGroup(config.adapter, r);
    assert FixesAdapter(Groups(names, routes)[0], adapters[0]);
    HundredPercent(se);
    OnlyPart(routes, adapters[0].route);
  }

  lemma HundredPercent(se: SwapExchange)
    requires se.percent == 100.0
    ensures ToFixed0(se.percent * 100.0) == 10000
  {
  }

  lemma OneGroup(name: string, r: RawRoute)
    ensures Groups([name], [r]) == [ContractAdapter(name, r.percent, r.param.networkFee, [r])]
  {
    assert [] + [name] == [name] && [] + [r] == [r];
    FirstsNext([], name);
    PickNext([], [], name, r, name);
    SumSnoc([], r, Percent);
    SumSnoc([], r, Fee);
    assert Groups([name], [r])[0] == Group([name], [r], name);
  }

  lemma OnlyPart(raw: seq<RawRoute>, fixed: seq<Route<Option<int>>>)
    requires |raw| == 1 && raw[0].percent == 10000 && Fixes(raw, fixed)
    ensures fixed == [Route(raw[0].param, raw[0].index, Some(10000))]
  {
    assert raw[..0] == [];
    assert Sum(raw, Percent) == Sum([], Percent) + 10000;
    var parts := Parts(fixed);
    assert parts[..0] == [] && BasisPoints.SumInt(parts) == BasisPoints.SumInt([]) + parts[0];
  }

  // ----- the paths of a route -----

  datatype Swap = Swap(destToken: string, exchanges: seq<SwapExchange>)

  datatype ContractPath = ContractPath(destination: string, totalNetworkFee: int, adapters: seq<FixedAdapter>)

  function AllNetworkFees(swaps: seq<Swap>): int {
    if swaps == [] then 0 else AllNetworkFees(swaps[..|swaps| - 1]) + NetworkFees(swaps[|swaps| - 1].exchanges)
  }

  /** A path serves its swap under the greedy assignment, and asks for what its exchanges ask for. */
  ghost predicate IsPath(s: Service, swap: Swap, path: ContractPath) {
    var a := Assign(s, Exchanges(swap.exchanges), Sell);
    && path.destination == swap.destToken && a.Success? && Serve(path.adapters, a.value, swap.exchanges)
    && path.totalNetworkFee == NetworkFees(swap.exchanges) == FeesOf(path.adapters)
  }

  /** `IsPath` as a function value: the loop over the swaps need not look inside. */
  ghost function PathTest(s: Service): (f: (Swap, ContractPath) -> bool)
    ensures forall swap, path {:trigger IsPath(s, swap, path)} :: f(swap, path) == IsPath(s, swap, path)
  {
    var g := (swap: Swap, path: ContractPath) => IsPath(s, swap, path);
    assert forall swap, path {:trigger IsPath(s, swap, path)} :: g(swap, path) == IsPath(s, swap, path);
    var f: (Swap, ContractPath) -> bool :|
      forall swap, path {:trigger IsPath(s, swap, path)} :: f(swap, path) == IsPath(s, swap, path);
    f
  }

  /** Every exchange of the swap has an adapter. */
  ghost predicate Routable(s: Service, swap: Swap) {
    forall i | 0 <= i < |swap.exchanges| :: GetAdapter(s, swap.exchanges[i].exchange, Sell) != []
  }

  method PathOf(s: Service, swap: Swap) returns (r: Result<ContractPath, AssignError>)
    requires Percentages(swap.exchanges)
    ensures r.Success? <==> Routable(s, swap)
    ensures r.Success? ==> PathTest(s)(swap, r.value)
    ensures r.Success? ==> r.value.totalNetworkFee == NetworkFees(swap.exchanges)
  {
    SellSucceeds(s, Exchanges(swap.exchanges));
    assert forall i | 0 <= i < |swap.exchanges| :: Exchanges(swap.exchanges)[i] in Exchanges(swap.exchanges);
    var got := GetAdapters(s, swap.exchanges);
    if got.Failure? {
      return Failure(got.error);
    }
    var totalPathNetworkFee := AddFees(got.value);
    r := Success(ContractPath(swap.destToken, totalPathNetworkFee, got.value));
    assert IsPath(s, swap, r.value);
  }

  /** The map over the swaps. */
  method PathsOf(s: Service, swaps: seq<Swap>) returns (r: Result<(seq<ContractPath>, int), AssignError>)
    requires forall i | 0 <= i < |swaps| :: Percentages(swaps[i].exchanges)
    ensures r.Success? <==> forall i | 0 <= i < |swaps| :: Routable(s, swaps[i])
    ensures r.Success? ==> r.value.1 == AllNetworkFees(swaps) && |r.value.0| == |swaps|
    ensures r.Success? ==> forall i | 0 <= i < |swaps| :: PathTest(s)(swaps[i], r.value.0[i])
  {
    var paths: seq<ContractPath>, totalNetworkFee := [], 0;
    ghost var isPath := PathTest(s);
    for i := 0 to |swaps|
      invariant |paths| == i && totalNetworkFee == AllNetworkFees(swaps[..i])
      invariant forall j | 0 <= j < i :: Routable(s, swaps[j])
      invariant forall j | 0 <= j < i :: isPath(swaps[j], paths[j])
    {
      var path :- PathOf(s, swaps[i]);
      totalNetworkFee := totalNetworkFee + path.totalNetworkFee;
      paths := paths + [path];
      assert swaps[..i + 1][..i] == swaps[..i];
    }
    assert swaps[..|swaps|] == swaps;
    return Success((paths, totalNetworkFee));
  }

  /** The network fee of the whole call is the sum of what every exchange asked for, path by path. */
  method GetContractPathsWithNetworkFee(s: Service, swaps: seq<Swap>)
    returns (r: Result<(seq<ContractPath>, int), AssignError>)
    requires forall i | 0 <= i < |swaps| :: Percentages(swaps[i].exchanges)
    ensures r.Success? <==> forall i | 0 <= i < |swaps| :: Routable(s, swaps[i])
    ensures r.Success? ==> r.value.1 == AllNetworkFees(swaps) && |r.value.0| == |swaps|
    ensures r.Success? ==> forall i | 0 <= i < |swaps| :: IsPath(s, swaps[i], r.value.0[i])
  {
    r := PathsOf(s, swaps);
  }

  method AddFees(adapters: seq<FixedAdapter>) returns (sum: int)
    ensures sum == FeesOf(adapters)
  {
    sum := 0;
    for i := 0 to |adapters|
      invariant sum == FeesOf(adapters[..i])
    {
      assert adapters[..i + 1][..i] == adapters[..i];
      sum := sum + adapters[i].networkFee;
    }
    assert adapters[..|adapters|] == adapters;
  }
}
