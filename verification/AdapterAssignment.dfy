/** `PayloadEncoder.getOptimalExchangeAdapterMap`: the adapter that serves most exchanges takes
    them, and what it leaves is assigned the same way. */
module AdapterAssignment {
  import opened Wrappers
  import opened Text

  datatype Side = Sell | Buy

  datatype Config = Config(adapter: string, index: nat)

  /** The adapters configured for each lower-case exchange key, on either side. */
  datatype Service = Service(adapters: (string, Side) -> seq<Config>)

  datatype AssignError = NoAdapterFound(exchange: string) | NoCommonAdapter

  type Assignment = map<string, Config>

  /** `getAdapter`; an exchange that is not configured has no adapters: either way an error is thrown. */
  function GetAdapter(s: Service, exchange: string, side: Side): seq<Config> {
    s.adapters(Lower(exchange), side)
  }

  /** `find` by lower-case adapter address. */
  function FirstWith(configs: seq<Config>, adapter: string): (r: Option<Config>)
    ensures r.Some? ==> r.value in configs && Lower(r.value.adapter) == adapter
    ensures r.None? <==> forall c | c in configs :: Lower(c.adapter) != adapter
  {
    if configs == [] then None
    else if Lower(configs[0].adapter) == adapter then Some(configs[0])
    else FirstWith(configs[1..], adapter)
  }

  predicate Serves(s: Service, exchange: string, side: Side, adapter: string) {
    FirstWith(GetAdapter(s, exchange, side), adapter).Some?
  }

  // ----- counting points -----

  function NamesOf(configs: seq<Config>): (r: seq<string>)
    ensures |r| == |configs| && forall i | 0 <= i < |configs| :: r[i] == Lower(configs[i].adapter)
  {
    seq(|configs|, i requires 0 <= i < |configs| => Lower(configs[i].adapter))
  }

  /** Every adapter entry of every exchange, in the order they are counted. */
  function Names(s: Service, exchanges: seq<string>, side: Side): seq<string> {
    if exchanges == [] then []
    else
      var last := |exchanges| - 1;
      Names(s, exchanges[..last], side) + NamesOf(GetAdapter(s, exchanges[last], side))
  }

  /** Each name where it first appears: the key order of `adapterPoints`. */
  function Firsts(names: seq<string>): seq<string> {
    if names == [] then []
    else
      var last := |names| - 1;
      var r := Firsts(names[..last]);
      if names[last] in r then r else r + [names[last]]
  }

  lemma {:induction false} FirstsAreNames(names: seq<string>)
    ensures forall n :: n in Firsts(names) <==> n in names
    ensures forall i, j | 0 <= i < j < |Firsts(names)| :: Firsts(names)[i] != Firsts(names)[j]
  {
    if names != [] {
      var last := |names| - 1;
      FirstsAreNames(names[..last]);
      assert names == names[..last] + [names[last]];
    }
  }

  /** The `reduce` over the keys: of two with equal points the later one stays. */
  function MostPoints(keys: seq<string>, points: string -> nat): (r: string)
    requires keys != []
    ensures r in keys && forall k | k in keys :: points(k) <= points(r)
  {
    if |keys| == 1 then keys[0]
    else
      var last := |keys| - 1;
      var a := MostPoints(keys[..last], points);
      assert keys == keys[..last] + [keys[last]];
      if points(a) > points(keys[last]) then a else keys[last]
  }

  /** How often an adapter occurs in a list of entries. */
  function Points(names: seq<string>): string -> nat {
    name => multiset(names)[name]
  }

  function Best(names: seq<string>): (r: string)
    requires |names| > 0
    ensures r in names && forall n :: Points(names)(n) <= Points(names)(r)
  {
    FirstsAreNames(names);
    assert names[0] in Firsts(names);
    var r := MostPoints(Firsts(names), Points(names));
    assert forall n | n !in names :: Points(names)(n) == 0;
    r
  }

  /** Of the adapters with most points the one seen last is chosen. */
  lemma {:induction false} LastOfTheMost(keys: seq<string>, points: string -> nat, i: nat, j: nat)
    requires i < j < |keys| && keys[i] == MostPoints(keys, points)
    requires forall a, b | 0 <= a < b < |keys| :: keys[a] != keys[b]
    ensures points(keys[j]) < points(keys[i])
  {
    var last := |keys| - 1;
    assert MostPoints(keys, points) != keys[last];
    if j < last {
      LastOfTheMost(keys[..last], points, i, j);
    }
  }

  lemma BestIsLast(names: seq<string>, i: nat, j: nat)
    requires i < j < |Firsts(names)| && Firsts(names)[i] == Best(names)
    ensures Points(names)(Firsts(names)[j]) < Points(names)(Best(names))
  {
    FirstsAreNames(names);
    LastOfTheMost(Firsts(names), Points(names), i, j);
  }

  // ----- the assignment -----

  function FirstMissing(s: Service, exchanges: seq<string>, side: Side): (r: Option<string>)
    ensures r.Some? ==> r.value in exchanges && GetAdapter(s, r.value, side) == []
    ensures r.None? <==> forall e | e in exchanges :: GetAdapter(s, e, side) != []
  {
    if exchanges == [] then None
    else if GetAdapter(s, exchanges[0], side) == [] then Some(exchanges[0])
    else FirstMissing(s, exchanges[1..], side)
  }

  /** The exchanges the chosen adapter serves, each with its own entry for it. */
  function Chosen(s: Service, exchanges: seq<string>, side: Side, adapter: string): Assignment {
    if exchanges == [] then map[]
    else
      var last := |exchanges| - 1;
      var m := Chosen(s, exchanges[..last], side, adapter);
      match FirstWith(GetAdapter(s, exchanges[last], side), adapter)
      case Some(c) => m[Lower(exchanges[last]) := c]
      case None => m
  }

  /** The exchanges it does not serve, in order. */
  function Left(s: Service, exchanges: seq<string>, side: Side, adapter: string): seq<string> {
    if exchanges == [] then []
    else
      var last := |exchanges| - 1;
      var r := Left(s, exchanges[..last], side, adapter);
      if Serves(s, exchanges[last], side, adapter) then r else r + [exchanges[last]]
  }

  lemma {:induction false} ChosenAre(s: Service, exchanges: seq<string>, side: Side, adapter: string)
    ensures forall k | k in Chosen(s, exchanges, side, adapter) ::
              exists e :: e in exchanges && Serves(s, e, side, adapter) && Lower(e) == k
    ensures forall e | e in exchanges && Serves(s, e, side, adapter) ::
              && Lower(e) in Chosen(s, exchanges, side, adapter)
              && Chosen(s, exchanges, side, adapter)[Lower(e)] == FirstWith(GetAdapter(s, e, side), adapter).value
  {
    if exchanges != [] {
      var last := |exchanges| - 1;
      var prefix, e0 := exchanges[..last], exchanges[last];
      ChosenAre(s, prefix, side, adapter);
      assert exchanges == prefix + [e0];
      var m, next := Chosen(s, prefix, side, adapter), Chosen(s, exchanges, side, adapter);
      forall k | k in next
        ensures exists e :: e in exchanges && Serves(s, e, side, adapter) && Lower(e) == k
      {
        if k in m {
          var e :| e in prefix && Serves(s, e, side, adapter) && Lower(e) == k;
          assert e in exchanges;
        } else {
          assert e0 in exchanges && Lower(e0) == k;
        }
      }
      forall e | e in exchanges && Serves(s, e, side, adapter)
        ensures Lower(e) in next && next[Lower(e)] == FirstWith(GetAdapter(s, e, side), adapter).value
      {
        if Lower(e) == Lower(e0) {
          assert GetAdapter(s, e, side) == GetAdapter(s, e0, side);
        } else {
          assert e in prefix;
        }
      }
    }
  }

  lemma {:induction false} ChosenHaveAdapter(s: Service, exchanges: seq<string>, side: Side, adapter: string)
    ensures forall k | k in Chosen(s, exchanges, side, adapter) ::
              Lower(Chosen(s, exchanges, side, adapter)[k].adapter) == adapter
  {
    if exchanges != [] {
      ChosenHaveAdapter(s, exchanges[..|exchanges| - 1], side, adapter);
    }
  }

  lemma {:induction false} LeftAre(s: Service, exchanges: seq<string>, side: Side, adapter: string)
    ensures |Left(s, exchanges, side, adapter)| <= |exchanges|
    ensures forall e :: e in Left(s, exchanges, side, adapter) <==> e in exchanges && !Serves(s, e, side, adapter)
    ensures (exists e :: e in exchanges && Serves(s, e, side, adapter)) ==>
              |Left(s, exchanges, side, adapter)| < |exchanges|
  {
    if exchanges != [] {
      var last := |exchanges| - 1;
      LeftAre(s, exchanges[..last], side, adapter);
      assert exchanges == exchanges[..last] + [exchanges[last]];
    }
  }

  lemma NamesNext(s: Service, exchanges: seq<string>, side: Side, i: nat)
    requires i < |exchanges|
    ensures Names(s, exchanges[..i + 1], side) ==
            Names(s, exchanges[..i], side) + NamesOf(GetAdapter(s, exchanges[i], side))
  {
    assert exchanges[..i + 1][..i] == exchanges[..i];
  }

  lemma {:induction false} NamedServes(s: Service, exchanges: seq<string>, side: Side, adapter: string)
    ensures adapter in Names(s, exchanges, side) <==> exists e :: e in exchanges && Serves(s, e, side, adapter)
  {
    if exchanges != [] {
      var last := |exchanges| - 1;
      NamedServes(s, exchanges[..last], side, adapter);
      var configs := GetAdapter(s, exchanges[last], side);
      assert exchanges == exchanges[..last] + [exchanges[last]];
      if adapter in NamesOf(configs) {
        var i :| 0 <= i < |configs| && NamesOf(configs)[i] == adapter;
        assert configs[i] in configs;
        assert Serves(s, exchanges[last], side, adapter);
      } else {
        forall c | c in configs
          ensures Lower(c.adapter) != adapter
        {
          var i :| 0 <= i < |configs| && configs[i] == c;
          assert NamesOf(configs)[i] == Lower(c.adapter);
        }
      }
    }
  }

  /** Each round serves at least one exchange. */
  lemma RoundServes(s: Service, exchanges: seq<string>, side: Side)
    requires exchanges != [] && FirstMissing(s, exchanges, side).None?
    ensures Names(s, exchanges, side) != []
    ensures |Left(s, exchanges, side, Best(Names(s, exchanges, side)))| < |exchanges|
  {
    var names := Names(s, exchanges, side);
    var e := exchanges[0];
    var configs := GetAdapter(s, e, side);
    assert configs[0] in configs && Serves(s, e, side, Lower(configs[0].adapter));
    NamedServes(s, exchanges, side, Lower(configs[0].adapter));
    NamedServes(s, exchanges, side, Best(names));
    LeftAre(s, exchanges, side, Best(names));
  }

  function Assign(s: Service, exchanges: seq<string>, side: Side): Result<Assignment, AssignError>
    decreases |exchanges|
  {
    if exchanges == [] then Success(map[])
    else if FirstMissing(s, exchanges, side).Some? then
      Failure(NoAdapterFound(FirstMissing(s, exchanges, side).value))
    else
      RoundServes(s, exchanges, side);
      var best := Best(Names(s, exchanges, side));
      var left := Left(s, exchanges, side, best);
      if side == Buy && left != [] then Failure(NoCommonAdapter)
      else
        var rest :- Assign(s, left, Sell);
        Success(Chosen(s, exchanges, side, best) + rest)
  }

  // ----- what the assignment promises -----

  /** Every exchange, and nothing else, is mapped to an entry of its own list. */
  ghost predicate Assigns(s: Service, exchanges: seq<string>, side: Side, m: Assignment) {
    && (forall k :: k in m <==> exists e :: e in exchanges && Lower(e) == k)
    && (forall e | e in exchanges :: m[Lower(e)] in GetAdapter(s, e, side))
  }

  lemma {:induction false} AssignIsOwn(s: Service, exchanges: seq<string>, side: Side, m: Assignment)
    requires Assign(s, exchanges, side) == Success(m)
    ensures Assigns(s, exchanges, side, m)
    decreases |exchanges|
  {
    if exchanges != [] {
      RoundServes(s, exchanges, side);
      var best := Best(Names(s, exchanges, side));
      var left := Left(s, exchanges, side, best);
      assert Assign(s, left, Sell).Success?;
      var rest := Assign(s, left, Sell).value;
      AssignIsOwn(s, left, Sell, rest);
      LeftAre(s, exchanges, side, best);
      RoundAssigns(s, exchanges, side, best, left, rest);
    }
  }

  lemma RoundKeys(s: Service, exchanges: seq<string>, side: Side, adapter: string, left: seq<string>, rest: Assignment)
    requires forall e | e in left :: e in exchanges
    requires forall k | k in rest :: exists e :: e in left && Lower(e) == k
    ensures forall k | k in Chosen(s, exchanges, side, adapter) + rest :: exists e :: e in exchanges && Lower(e) == k
  {
    ChosenAre(s, exchanges, side, adapter);
    forall k | k in rest
      ensures exists e :: e in exchanges && Lower(e) == k
    {
      var e :| e in left && Lower(e) == k;
    }
  }

  /** One round, and an assignment of what it leaves, assign everything. */
  lemma RoundAssigns(s: Service, exchanges: seq<string>, side: Side, adapter: string, left: seq<string>,
                     rest: Assignment)
    requires forall e :: e in left <==> e in exchanges && !Serves(s, e, side, adapter)
    requires Assigns(s, left, Sell, rest) && (side == Buy ==> left == [])
    ensures Assigns(s, exchanges, side, Chosen(s, exchanges, side, adapter) + rest)
  {
    var m := Chosen(s, exchanges, side, adapter) + rest;
    RoundKeys(s, exchanges, side, adapter, left, rest);
    ChosenAre(s, exchanges, side, adapter);
    forall e | e in exchanges
      ensures Lower(e) in m && m[Lower(e)] in GetAdapter(s, e, side)
    {
      if Serves(s, e, side, adapter) {
        assert Lower(e) !in rest;
      } else {
        assert e in left;
      }
    }
  }

  // ----- who takes a round -----

  /** How many entries the exchanges list for an adapter. */
  ghost function Tally(s: Service, exchanges: seq<string>, side: Side, adapter: string): nat {
    if exchanges == [] then 0
    else multiset(NamesOf(GetAdapter(s, exchanges[0], side)))[adapter] + Tally(s, exchanges[1..], side, adapter)
  }

  lemma {:induction false} TallySnoc(s: Service, exchanges: seq<string>, e: string, side: Side, adapter: string)
    ensures Tally(s, exchanges + [e], side, adapter) ==
            Tally(s, exchanges, side, adapter) + multiset(NamesOf(GetAdapter(s, e, side)))[adapter]
  {
    if exchanges == [] {
      assert ([] + [e])[1..] == [];
    } else {
      assert (exchanges + [e])[1..] == exchanges[1..] + [e];
      TallySnoc(s, exchanges[1..], e, side, adapter);
    }
  }

  lemma {:induction false} PointsAreTally(s: Service, exchanges: seq<string>, side: Side, adapter: string)
    ensures Points(Names(s, exchanges, side))(adapter) == Tally(s, exchanges, side, adapter)
  {
    if exchanges != [] {
      var last := |exchanges| - 1;
      PointsAreTally(s, exchanges[..last], side, adapter);
      TallySnoc(s, exchanges[..last], exchanges[last], side, adapter);
      PointsAdd(Names(s, exchanges[..last], side), NamesOf(GetAdapter(s, exchanges[last], side)), adapter);
      assert exchanges == exchanges[..last] + [exchanges[last]];
    }
  }

  lemma PointsAdd(first: seq<string>, second: seq<string>, adapter: string)
    ensures Points(first + second)(adapter) == Points(first)(adapter) + multiset(second)[adapter]
  {
  }

  /** Some entry for `b` stands before every entry for `a`: in an earlier exchange, or earlier in the
      list of the same one. */
  ghost predicate SeenBefore(s: Service, exchanges: seq<string>, side: Side, b: string, a: string) {
    exists i: nat, j: nat :: i < |exchanges| && ListedAt(s, exchanges[i], side, b, j)
                             && (forall k | 0 <= k < i :: !Serves(s, exchanges[k], side, a))
                             && (forall k: nat | k <= j :: !ListedAt(s, exchanges[i], side, a, k))
  }

  ghost predicate ListedAt(s: Service, exchange: string, side: Side, adapter: string, j: nat) {
    j < |GetAdapter(s, exchange, side)| && Lower(GetAdapter(s, exchange, side)[j].adapter) == adapter
  }

  lemma {:induction false} FirstsInOrder(names: seq<string>, i: nat, j: nat) returns (p: nat)
    requires i < j < |Firsts(names)|
    ensures p < |names| && names[p] == Firsts(names)[i] && Firsts(names)[j] !in names[..p]
  {
    var last := |names| - 1;
    var r := Firsts(names[..last]);
    FirstsAreNames(names[..last]);
    if j < |r| {
      p := FirstsInOrder(names[..last], i, j);
      assert names[..last][..p] == names[..p];
    } else {
      assert r[i] in names[..last];
      p :| 0 <= p < last && names[..last][p] == r[i];
      assert names[..p] <= names[..last];
      assert forall x | x in names[..p] :: x in names[..last];
    }
  }

  lemma {:induction false} SeenInNames(s: Service, exchanges: seq<string>, side: Side, b: string, a: string, p: nat)
    requires a != b
    requires p < |Names(s, exchanges, side)| && Names(s, exchanges, side)[p] == b
    requires a !in Names(s, exchanges, side)[..p]
    ensures SeenBefore(s, exchanges, side, b, a)
  {
    var last := |exchanges| - 1;
    var prefix, e := exchanges[..last], exchanges[last];
    var before := Names(s, prefix, side);
    if p < |before| {
      assert Names(s, exchanges, side)[..p] == before[..p];
      SeenInNames(s, prefix, side, b, a, p);
      var i: nat, j: nat :| i < |prefix| && ListedAt(s, prefix[i], side, b, j)
                            && (forall k | 0 <= k < i :: !Serves(s, prefix[k], side, a))
                            && (forall k: nat | k <= j :: !ListedAt(s, prefix[i], side, a, k));
      assert exchanges[i] == prefix[i] && forall k | 0 <= k < i :: exchanges[k] == prefix[k];
    } else {
      SeenInLast(s, exchanges, side, b, a, p - |before|);
    }
  }

  lemma SeenInLast(s: Service, exchanges: seq<string>, side: Side, b: string, a: string, j: nat)
    requires exchanges != [] && a != b
    requires var before := Names(s, exchanges[..|exchanges| - 1], side);
             && |before| + j < |Names(s, exchanges, side)| && Names(s, exchanges, side)[|before| + j] == b
             && a !in Names(s, exchanges, side)[..|before| + j]
    ensures SeenBefore(s, exchanges, side, b, a)
  {
    var last := |exchanges| - 1;
    var prefix, e, names := exchanges[..last], exchanges[last], Names(s, exchanges, side);
    var before, configs := Names(s, prefix, side), GetAdapter(s, e, side);
    var listed := NamesOf(configs);
    assert names == before + listed;
    assert names[..|before| + j] == before + listed[..j];
    NamedServes(s, prefix, side, a);
    assert ListedAt(s, e, side, b, j);
    forall k: nat | k <= j
      ensures !ListedAt(s, e, side, a, k)
    {
      assert k < j ==> listed[..j][k] == listed[k];
    }
    forall k | 0 <= k < last
      ensures !Serves(s, exchanges[k], side, a)
    {
      assert prefix[k] == exchanges[k] && prefix[k] in prefix;
    }
  }

  /** The first entry an exchange lists for an adapter. */
  ghost predicate IsFirstEntry(s: Service, exchange: string, side: Side, adapter: string, config: Config) {
    exists j: nat :: ListedAt(s, exchange, side, adapter, j) && GetAdapter(s, exchange, side)[j] == config
                     && forall k: nat | k < j :: !ListedAt(s, exchange, side, adapter, k)
  }

  lemma {:induction false} FirstWithIsFirst(configs: seq<Config>, adapter: string) returns (j: nat)
    requires FirstWith(configs, adapter).Some?
    ensures j < |configs| && configs[j] == FirstWith(configs, adapter).value
    ensures Lower(configs[j].adapter) == adapter && forall k: nat | k < j :: Lower(configs[k].adapter) != adapter
  {
    if Lower(configs[0].adapter) == adapter {
      return 0;
    }
    j := FirstWithIsFirst(configs[1..], adapter);
    j := j + 1;
    assert forall k: nat | 0 < k < j :: configs[k] == configs[1..][k - 1];
  }

  lemma ServedByFirst(s: Service, exchange: string, side: Side, adapter: string)
    requires Serves(s, exchange, side, adapter)
    ensures IsFirstEntry(s, exchange, side, adapter, FirstWith(GetAdapter(s, exchange, side), adapter).value)
  {
    var j := FirstWithIsFirst(GetAdapter(s, exchange, side), adapter);
    assert ListedAt(s, exchange, side, adapter, j);
  }

  /** The exchanges left over by an adapter are those it does not serve, each where it was. */
  lemma {:induction false} LeftSplits(s: Service, a: seq<string>, b: seq<string>, side: Side, adapter: string)
    ensures Left(s, a + b, side, adapter) == Left(s, a, side, adapter) + Left(s, b, side, adapter)
    decreases |b|
  {
    if b == [] {
      assert a + b == a;
    } else {
      var y, e := b[..|b| - 1], b[|b| - 1];
      LeftSplits(s, a, y, side, adapter);
      LeftJoins(s, a, b, y, e, side, adapter);
    }
  }

  lemma LeftJoins(s: Service, a: seq<string>, b: seq<string>, y: seq<string>, e: string, side: Side, adapter: string)
    requires b == y + [e]
    requires Left(s, a + y, side, adapter) == Left(s, a, side, adapter) + Left(s, y, side, adapter)
    ensures Left(s, a + b, side, adapter) == Left(s, a, side, adapter) + Left(s, b, side, adapter)
  {
    assert a + b == a + y + [e];
    LeftNext(s, a + y, e, side, adapter);
    LeftNext(s, y, e, side, adapter);
  }

  lemma LeftNext(s: Service, a: seq<string>, e: string, side: Side, adapter: string)
    ensures Left(s, a + [e], side, adapter) ==
            Left(s, a, side, adapter) + if Serves(s, e, side, adapter) then [] else [e]
  {
    assert (a + [e])[..|a|] == a;
  }

  /** No adapter has more entries than the one that takes the round, and of those with as many it is
      the one seen last. */
  ghost predicate HasMost(s: Service, exchanges: seq<string>, side: Side, a: string) {
    && (forall b :: Tally(s, exchanges, side, b) <= Tally(s, exchanges, side, a))
    && (forall b | b != a && Tally(s, exchanges, side, b) == Tally(s, exchanges, side, a) ::
          SeenBefore(s, exchanges, side, b, a))
  }

  lemma BestHasMost(s: Service, exchanges: seq<string>, side: Side)
    requires exchanges != [] && FirstMissing(s, exchanges, side).None? && Names(s, exchanges, side) != []
    ensures HasMost(s, exchanges, side, Best(Names(s, exchanges, side)))
  {
    var names := Names(s, exchanges, side);
    var a, firsts := Best(names), Firsts(names);
    FirstsAreNames(names);
    forall b
      ensures Tally(s, exchanges, side, b) == Points(names)(b) <= Points(names)(a)
    {
      PointsAreTally(s, exchanges, side, b);
    }
    assert names[0] in names && Points(names)(names[0]) > 0;
    forall b | b != a && Tally(s, exchanges, side, b) == Tally(s, exchanges, side, a)
      ensures SeenBefore(s, exchanges, side, b, a)
    {
      assert b in names && a in names;
      var i, j :| 0 <= i < |firsts| && firsts[i] == a && 0 <= j < |firsts| && firsts[j] == b;
      if i < j {
        BestIsLast(names, i, j);
      }
      var p := FirstsInOrder(names, j, i);
      SeenInNames(s, exchanges, side, b, a, p);
    }
  }

  /** The round `a` takes: its exchanges get their first entry for it, and the others, in their order,
      what they get among themselves on a sale. */
  ghost predicate TakesRoundOf(s: Service, exchanges: seq<string>, side: Side, a: string, m: Assignment) {
    && (forall e | e in exchanges && Serves(s, e, side, a) ::
          Lower(e) in m && IsFirstEntry(s, e, side, a, m[Lower(e)]))
    && var rest := Assign(s, Left(s, exchanges, side, a), Sell);
       && rest.Success?
       && (forall e | e in exchanges && !Serves(s, e, side, a) ::
             Lower(e) in m && Lower(e) in rest.value && m[Lower(e)] == rest.value[Lower(e)])
  }

  /** Every round, of a sale or a purchase, goes to the adapter with most entries. */
  lemma RoundGoesToMost(s: Service, exchanges: seq<string>, side: Side, m: Assignment)
    requires Assign(s, exchanges, side) == Success(m) && exchanges != []
    ensures exists a :: HasMost(s, exchanges, side, a) && TakesRoundOf(s, exchanges, side, a, m)
  {
    RoundServes(s, exchanges, side);
    var a := Best(Names(s, exchanges, side));
    BestHasMost(s, exchanges, side);
    var left := Left(s, exchanges, side, a);
    assert Assign(s, left, Sell).Success?;
    BestTakesRound(s, exchanges, side, a, left, Assign(s, left, Sell).value, m);
  }

  lemma BestTakesRound(s: Service, exchanges: seq<string>, side: Side, a: string, left: seq<string>, rest: Assignment,
                       m: Assignment)
    requires left == Left(s, exchanges, side, a) && Assign(s, left, Sell) == Success(rest)
    requires m == Chosen(s, exchanges, side, a) + rest
    ensures TakesRoundOf(s, exchanges, side, a, m)
  {
    AssignIsOwn(s, left, Sell, rest);
    RoundMaps(s, exchanges, side, a, left, rest);
  }

  lemma RoundMaps(s: Service, exchanges: seq<string>, side: Side, a: string, left: seq<string>, rest: Assignment)
    requires left == Left(s, exchanges, side, a) && Assigns(s, left, Sell, rest)
    ensures var m := Chosen(s, exchanges, side, a) + rest;
            && (forall e | e in exchanges && Serves(s, e, side, a) ::
                  Lower(e) in m && IsFirstEntry(s, e, side, a, m[Lower(e)]))
            && (forall e | e in exchanges && !Serves(s, e, side, a) ::
                  Lower(e) in m && Lower(e) in rest && m[Lower(e)] == rest[Lower(e)])
  {
    var m := Chosen(s, exchanges, side, a) + rest;
    LeftAre(s, exchanges, side, a);
    forall e | e in exchanges && Serves(s, e, side, a)
      ensures Lower(e) in m && IsFirstEntry(s, e, side, a, m[Lower(e)])
    {
      ServedFirst(s, exchanges, side, a, e, left, rest);
    }
    forall e | e in exchanges && !Serves(s, e, side, a)
      ensures Lower(e) in rest
    {
      assert e in left;
    }
  }

  lemma ServedFirst(s: Service, exchanges: seq<string>, side: Side, a: string, e: string, left: seq<string>,
                    rest: Assignment)
    requires e in exchanges && Serves(s, e, side, a)
    requires left == Left(s, exchanges, side, a) && Assigns(s, left, Sell, rest)
    ensures var m := Chosen(s, exchanges, side, a) + rest;
            Lower(e) in m && IsFirstEntry(s, e, side, a, m[Lower(e)])
  {
    ChosenAre(s, exchanges, side, a);
    ServedByFirst(s, e, side, a);
    NotLeft(s, exchanges, side, a, e, left, rest);
  }

  /** An exchange that is served has no namesake among those left. */
  lemma NotLeft(s: Service, exchanges: seq<string>, side: Side, a: string, e: string, left: seq<string>,
                rest: Assignment)
    requires Serves(s, e, side, a) && left == Left(s, exchanges, side, a) && Assigns(s, left, Sell, rest)
    ensures Lower(e) !in rest
  {
    LeftAre(s, exchanges, side, a);
  }

  /** A sale is refused exactly when an exchange has no adapter at all, and it names the first one. */
  lemma {:induction false} SellSucceeds(s: Service, exchanges: seq<string>)
    ensures Assign(s, exchanges, Sell).Success? <==> forall e | e in exchanges :: GetAdapter(s, e, Sell) != []
    ensures Assign(s, exchanges, Sell).Failure? ==>
              FirstMissing(s, exchanges, Sell) == Some(Assign(s, exchanges, Sell).error.exchange)
    decreases |exchanges|
  {
    if exchanges != [] && FirstMissing(s, exchanges, Sell).None? {
      RoundServes(s, exchanges, Sell);
      var left := Left(s, exchanges, Sell, Best(Names(s, exchanges, Sell)));
      LeftAre(s, exchanges, Sell, Best(Names(s, exchanges, Sell)));
      SellSucceeds(s, left);
      assert FirstMissing(s, left, Sell).None?;
    }
  }

  /** A purchase maps every exchange to one and the same adapter. */
  lemma BuyUsesOneAdapter(s: Service, exchanges: seq<string>, m: Assignment)
    requires Assign(s, exchanges, Buy) == Success(m) && exchanges != []
    ensures var best := Best(Names(s, exchanges, Buy));
            forall k | k in m :: Lower(m[k].adapter) == best
  {
    var best := Best(Names(s, exchanges, Buy));
    ChosenHaveAdapter(s, exchanges, Buy, best);
    var left := Left(s, exchanges, Buy, best);
    assert Assign(s, left, Sell) == Success(map[]);
    assert m == Chosen(s, exchanges, Buy, best) + map[];
  }

  /** No exchange lists an adapter twice. */
  ghost predicate ListedOnce(s: Service, exchanges: seq<string>, side: Side) {
    forall e | e in exchanges :: forall n :: multiset(NamesOf(GetAdapter(s, e, side)))[n] <= 1
  }

  /** Then the points of an adapter are the number of exchanges it serves. */
  lemma {:induction false} PointsCount(s: Service, exchanges: seq<string>, side: Side, adapter: string)
    requires ListedOnce(s, exchanges, side)
    ensures Points(Names(s, exchanges, side))(adapter) + |Left(s, exchanges, side, adapter)| == |exchanges|
  {
    if exchanges != [] {
      var last := |exchanges| - 1;
      var e := exchanges[last];
      assert exchanges == exchanges[..last] + [e];
      PointsCount(s, exchanges[..last], side, adapter);
      NamedServes(s, [e], side, adapter);
      assert [e][..0] == [] && Names(s, [e], side) == NamesOf(GetAdapter(s, e, side));
      assert e in [e];
    }
  }

  /** So each round takes as many exchanges as any one adapter could. */
  lemma RoundIsLargest(s: Service, exchanges: seq<string>, side: Side, adapter: string)
    requires ListedOnce(s, exchanges, side) && Names(s, exchanges, side) != []
    ensures |Left(s, exchanges, side, Best(Names(s, exchanges, side)))| <= |Left(s, exchanges, side, adapter)|
  {
    PointsCount(s, exchanges, side, adapter);
    PointsCount(s, exchanges, side, Best(Names(s, exchanges, side)));
  }

  ghost predicate ServesAll(s: Service, exchanges: seq<string>, side: Side, adapter: string) {
    forall e | e in exchanges :: Serves(s, e, side, adapter)
  }

  /** And a purchase succeeds exactly when some adapter serves all the exchanges. */
  lemma BuySucceeds(s: Service, exchanges: seq<string>)
    requires ListedOnce(s, exchanges, Buy) && exchanges != []
    ensures Assign(s, exchanges, Buy).Success? <==>
            exists a :: ServesAll(s, exchanges, Buy, a)
  {
    if FirstMissing(s, exchanges, Buy).Some? {
      var e := FirstMissing(s, exchanges, Buy).value;
      assert forall a :: !Serves(s, e, Buy, a);
    } else {
      RoundServes(s, exchanges, Buy);
      var best := Best(Names(s, exchanges, Buy));
      LeavesNothing(s, exchanges, Buy, best);
      if a :| ServesAll(s, exchanges, Buy, a) {
        LeavesNothing(s, exchanges, Buy, a);
        RoundIsLargest(s, exchanges, Buy, a);
      }
    }
  }

  lemma LeavesNothing(s: Service, exchanges: seq<string>, side: Side, adapter: string)
    ensures Left(s, exchanges, side, adapter) == [] <==> ServesAll(s, exchanges, side, adapter)
  {
    LeftAre(s, exchanges, side, adapter);
    var left := Left(s, exchanges, side, adapter);
    if left != [] {
      assert left[0] in left;
    }
  }

  // ----- the method -----

  ghost predicate Counted(keys: seq<string>, points: map<string, nat>, names: seq<string>) {
    && keys == Firsts(names)
    && (forall k :: k in points <==> k in keys)
    && (forall k | k in points :: points[k] == Points(names)(k))
  }

  lemma CountedNew(keys: seq<string>, points: map<string, nat>, names: seq<string>, adapter: string)
    requires Counted(keys, points, names) && adapter !in points
    ensures Counted(keys + [adapter], points[adapter := 1], names + [adapter])
  {
    FirstsNext(names, adapter);
    PointsNext(names, adapter);
  }

  lemma CountedAgain(keys: seq<string>, points: map<string, nat>, names: seq<string>, adapter: string)
    requires Counted(keys, points, names) && adapter in points
    ensures Counted(keys, points[adapter := points[adapter] + 1], names + [adapter])
  {
    FirstsNext(names, adapter);
    PointsNext(names, adapter);
  }

  lemma FirstsNext(names: seq<string>, adapter: string)
    ensures Firsts(names + [adapter]) == if adapter in Firsts(names) then Firsts(names) else Firsts(names) + [adapter]
  {
    assert (names + [adapter])[..|names|] == names;
  }

  lemma PointsNext(names: seq<string>, adapter: string)
    ensures forall k :: Points(names + [adapter])(k) == Points(names)(k) + if k == adapter then 1 else 0
    ensures adapter !in Firsts(names) ==> Points(names)(adapter) == 0
  {
    FirstsAreNames(names);
    assert adapter !in names ==> multiset(names)[adapter] == 0;
  }

  method CountEntries(adapters: seq<Config>, keys0: seq<string>, points0: map<string, nat>, ghost before: seq<string>)
    returns (keys: seq<string>, points: map<string, nat>)
    requires Counted(keys0, points0, before)
    ensures Counted(keys, points, before + NamesOf(adapters))
  {
    keys, points := keys0, points0;
    ghost var names := before;
    for j := 0 to |adapters|
      invariant names == before + NamesOf(adapters)[..j] && Counted(keys, points, names)
    {
      var adapter := Lower(adapters[j].adapter);
      if adapter !in points {
        CountedNew(keys, points, names, adapter);
        keys := keys + [adapter];
        points := points[adapter := 1];
      } else {
        CountedAgain(keys, points, names, adapter);
        points := points[adapter := points[adapter] + 1];
      }
      names := names + [adapter];
      assert NamesOf(adapters)[..j + 1] == NamesOf(adapters)[..j] + [adapter];
    }
    assert NamesOf(adapters)[..|adapters|] == NamesOf(adapters);
  }

  /** The first loop: an exchange without adapters stops it. */
  method CountPoints(s: Service, exchanges: seq<string>, side: Side)
    returns (r: Result<(seq<string>, map<string, nat>), AssignError>)
    ensures r.Failure? ==> FirstMissing(s, exchanges, side).Some?
                           && r.error == NoAdapterFound(FirstMissing(s, exchanges, side).value)
    ensures r.Success? ==> FirstMissing(s, exchanges, side).None?
                           && Counted(r.value.0, r.value.1, Names(s, exchanges, side))
  {
    var keys: seq<string>, points: map<string, nat> := [], map[];
    for i := 0 to |exchanges|
      invariant FirstMissing(s, exchanges, side) == FirstMissing(s, exchanges[i..], side)
      invariant Counted(keys, points, Names(s, exchanges[..i], side))
    {
      var adapters := GetAdapter(s, exchanges[i], side);
      if adapters == [] {
        return Failure(NoAdapterFound(exchanges[i]));
      }
      assert exchanges[i..][1..] == exchanges[i + 1..];
      NamesNext(s, exchanges, side, i);
      keys, points := CountEntries(adapters, keys, points, Names(s, exchanges[..i], side));
    }
    assert exchanges[..|exchanges|] == exchanges;
    return Success((keys, points));
  }

  lemma MostNext(keys: seq<string>, i: nat, f: string -> nat)
    requires 0 < i < |keys|
    ensures var a := MostPoints(keys[..i], f);
            MostPoints(keys[..i + 1], f) == if f(a) > f(keys[i]) then a else keys[i]
  {
    assert keys[..i + 1][..i] == keys[..i];
  }

  method BestAdapter(keys: seq<string>, points: map<string, nat>, ghost f: string -> nat) returns (best: string)
    requires keys != [] && forall k | k in keys :: k in points && points[k] == f(k)
    ensures best == MostPoints(keys, f)
  {
    best := keys[0];
    for i := 1 to |keys|
      invariant best in keys && best == MostPoints(keys[..i], f)
    {
      MostNext(keys, i, f);
      best := if points[best] > points[keys[i]] then best else keys[i];
    }
    assert keys[..|keys|] == keys;
  }

  method GetOptimalExchangeAdapterMap(s: Service, exchanges: seq<string>, side: Side)
    returns (r: Result<Assignment, AssignError>)
    ensures r == Assign(s, exchanges, side)
    decreases |exchanges|
  {
    if |exchanges| == 0 {
      return Success(map[]);
    }
    var counted :- CountPoints(s, exchanges, side);
    RoundServes(s, exchanges, side);
    ghost var names := Names(s, exchanges, side);
    FirstsAreNames(names);
    assert names[0] in counted.0;
    var best := BestAdapter(counted.0, counted.1, Points(names));
    var round := TakeRound(s, exchanges, side, best);
    if round.Failure? {
      return Failure(round.error);
    }
    var rest :- GetOptimalExchangeAdapterMap(s, round.value.1, Sell);
    return Success(round.value.0 + rest);
  }

  /** The second loop: a purchase does not tolerate an exchange left over. */
  method TakeRound(s: Service, exchanges: seq<string>, side: Side, best: string)
    returns (r: Result<(Assignment, seq<string>), AssignError>)
    ensures side == Buy && Left(s, exchanges, side, best) != [] ==> r == Failure(NoCommonAdapter)
    ensures !(side == Buy && Left(s, exchanges, side, best) != []) ==>
              r == Success((Chosen(s, exchanges, side, best), Left(s, exchanges, side, best)))
  {
    var optimal: Assignment, left: seq<string> := map[], [];
    for i := 0 to |exchanges|
      invariant optimal == Chosen(s, exchanges[..i], side, best)
      invariant left == Left(s, exchanges[..i], side, best)
      invariant side == Buy ==> left == []
    {
      assert exchanges[..i + 1][..i] == exchanges[..i];
      match FirstWith(GetAdapter(s, exchanges[i], side), best)
      case Some(config) =>
        optimal := optimal[Lower(exchanges[i]) := config];
      case None =>
        if side == Buy {
          LeftAre(s, exchanges, side, best);
          assert exchanges[i] in Left(s, exchanges, side, best);
          return Failure(NoCommonAdapter);
        }
        left := left + [exchanges[i]];
    }
    assert exchanges[..|exchanges|] == exchanges;
    return Success((optimal, left));
  }
}
