/** `ComposedEventSubscriber`: one subscriber made of parts that each look through a lens. */
module ComposedSubscriber {
  import opened Wrappers
  import opened Steps
  import opened Text
  import opened Sequences

  datatype Lens<!S, !A> = Lens(get: S -> A, put: (A, S) -> S)

  /** A `PartialEventSubscriber`; the parts share one type `A` of sub-states, one `I` of multicall
      inputs and one `O` of outputs. */
  datatype Part<!S, !A, !D, I, !O> = Part(
    addresses: seq<string>,
    lens: Lens<S, A>,
    process: (A, Log<D>) -> Option<A>,
    inputs: seq<I>,
    generate: seq<O> -> A)

  // ----- addresses -----

  /** How often a list of addresses names a given one, up to case. */
  function Mentions(addresses: seq<string>, key: string): nat {
    if addresses == [] then 0
    else Mentions(addresses[..|addresses| - 1], key) + if Lower(addresses[|addresses| - 1]) == key then 1 else 0
  }

  /** Every address counts that is the key up to case. */
  lemma {:induction false} MentionsAdd(first: seq<string>, second: seq<string>, key: string)
    ensures Mentions(first + second, key) == Mentions(first, key) + Mentions(second, key)
    ensures |second| == 1 ==> Mentions(second, key) == if Lower(second[0]) == key then 1 else 0
  {
    if second == [] {
      assert first + second == first;
    } else {
      var last := |second| - 1;
      MentionsAdd(first, second[..last], key);
      assert (first + second)[..|first + second| - 1] == first + second[..last];
      assert |second| == 1 ==> second[..last] == [];
    }
  }

  /** No two of the addresses are the same up to case. */
  predicate AllDistinct(addresses: seq<string>) {
    forall i, j | 0 <= i < j < |addresses| :: Lower(addresses[i]) != Lower(addresses[j])
  }

  ghost predicate NamesOnce(addresses: seq<string>) {
    forall key :: Mentions(addresses, key) <= 1
  }

  /** The distinctness a caller can check is that no key is named twice. */
  lemma {:induction false} NamedTwice(addresses: seq<string>)
    ensures NamesOnce(addresses) <==> AllDistinct(addresses)
  {
    if addresses != [] {
      var last := |addresses| - 1;
      var prefix, k := addresses[..last], Lower(addresses[last]);
      NamedTwice(prefix);
      IsMentioned(prefix, k);
      assert forall i | 0 <= i < last :: prefix[i] == addresses[i];
      if NamesOnce(addresses) {
        forall key
          ensures Mentions(prefix, key) <= 1
        {
          assert Mentions(prefix, key) <= Mentions(addresses, key);
        }
        assert Mentions(addresses, k) == Mentions(prefix, k) + 1;
        assert forall i | 0 <= i < last :: Lower(prefix[i]) != k;
      } else {
        var key :| Mentions(addresses, key) > 1;
        assert Mentions(prefix, key) > 1 || key == k;
      }
    }
  }

  lemma {:induction false} IsMentioned(addresses: seq<string>, key: string)
    ensures Mentions(addresses, key) > 0 <==> exists i :: 0 <= i < |addresses| && Lower(addresses[i]) == key
  {
    if addresses != [] {
      var last := |addresses| - 1;
      IsMentioned(addresses[..last], key);
      if Lower(addresses[last]) != key && exists i :: 0 <= i < |addresses| && Lower(addresses[i]) == key {
        var i :| 0 <= i < |addresses| && Lower(addresses[i]) == key;
        assert addresses[..last][i] == addresses[i];
      }
    }
  }

  function Times(i: nat, n: nat): (r: seq<nat>)
    ensures |r| == n && forall k | 0 <= k < n :: r[k] == i
  {
    seq(n, k => i)
  }

  /** The parts to ask about an address: each one as often as it names it, in order. */
  function Subscribers<S, A, D, I, O>(parts: seq<Part<S, A, D, I, O>>, key: string): seq<nat> {
    if parts == [] then []
    else
      var last := |parts| - 1;
      Subscribers(parts[..last], key) + Times(last, Mentions(parts[last].addresses, key))
  }

  predicate InRange(ps: seq<nat>, n: nat) {
    forall k | 0 <= k < |ps| :: ps[k] < n
  }

  // ----- one log -----

  /** The loop of `processLog` over the parts `ps`. */
  function Played<S, A, D, I, O>(parts: seq<Part<S, A, D, I, O>>, ps: seq<nat>, state: S, log: Log<D>): Option<S>
    requires InRange(ps, |parts|)
  {
    if ps == [] then None
    else
      var soFar := Played(parts, ps[..|ps| - 1], state, log);
      var p := parts[ps[|ps| - 1]];
      match p.process(p.lens.get(soFar.GetOr(state)), log)
      case Some(result) => Some(p.lens.put(result, soFar.GetOr(state)))
      case None => soFar
  }

  /** The answer is null exactly when no part subscribed has anything to say about the log. */
  lemma {:induction false} NullWhenNoneReacts<S, A, D, I, O>(parts: seq<Part<S, A, D, I, O>>, ps: seq<nat>, state: S,
                                                             log: Log<D>)
    requires InRange(ps, |parts|)
    ensures Played(parts, ps, state, log).None? <==>
            forall k | 0 <= k < |ps| :: parts[ps[k]].process(parts[ps[k]].lens.get(state), log).None?
  {
    if ps != [] {
      NullWhenNoneReacts(parts, ps[..|ps| - 1], state, log);
    }
  }

  /** The parts are played one after the other, each on what those before it have left. */
  lemma {:induction false} PlayedInParts<S, A, D, I, O>(parts: seq<Part<S, A, D, I, O>>, first: seq<nat>,
                                                        second: seq<nat>, state: S, log: Log<D>)
    requires InRange(first, |parts|) && InRange(second, |parts|)
    ensures InRange(first + second, |parts|)
    ensures var between := Played(parts, first, state, log).GetOr(state);
            Played(parts, first + second, state, log).GetOr(state) ==
            Played(parts, second, between, log).GetOr(between)
  {
    if second == [] {
      assert first + second == first;
    } else {
      var last := |second| - 1;
      PlayedInParts(parts, first, second[..last], state, log);
      assert (first + second)[..|first + second| - 1] == first + second[..last];
    }
  }

  lemma {:induction false} SubscribersInRange<S, A, D, I, O>(parts: seq<Part<S, A, D, I, O>>, key: string)
    ensures InRange(Subscribers(parts, key), |parts|)
  {
    if parts != [] {
      SubscribersInRange(parts[..|parts| - 1], key);
    }
  }

  /** The parts subscribed to an address stand in the order of the parts. */
  lemma {:induction false} SubscribersAscend<S, A, D, I, O>(parts: seq<Part<S, A, D, I, O>>, key: string)
    ensures var ps := Subscribers(parts, key);
            && (forall i, j | 0 <= i < j < |ps| :: ps[i] <= ps[j])
            && (forall p: nat | p < |parts| :: p in ps <==> Mentions(parts[p].addresses, key) > 0)
  {
    if parts != [] {
      var last := |parts| - 1;
      SubscribersAscend(parts[..last], key);
      SubscribersInRange(parts[..last], key);
      TimesAre(last, Mentions(parts[last].addresses, key));
    }
  }

  lemma TimesAre(i: nat, n: nat)
    ensures forall p | p in Times(i, n) :: p == i
    ensures i in Times(i, n) <==> n > 0
  {
    if n > 0 {
      assert Times(i, n)[0] == i;
    }
  }

  ghost predicate Lawful<S(!new), A(!new)>(l: Lens<S, A>) {
    forall a, s :: l.get(l.put(a, s)) == a
  }

  /** Writing through one lens cannot be seen through the other. */
  ghost predicate Apart<S(!new), A(!new)>(l: Lens<S, A>, m: Lens<S, A>) {
    forall a, s {:trigger m.get(l.put(a, s))} :: m.get(l.put(a, s)) == m.get(s)
  }

  ghost predicate Independent<S(!new), A(!new), D, I, O>(parts: seq<Part<S, A, D, I, O>>) {
    && (forall i | 0 <= i < |parts| :: Lawful(parts[i].lens))
    && (forall i, j | 0 <= i < |parts| && 0 <= j < |parts| && i != j :: Apart(parts[i].lens, parts[j].lens))
  }

  /** A part run on its own: one log, `n` times over. */
  function Repeat<A, D>(process: (A, Log<D>) -> Option<A>, a: A, log: Log<D>, n: nat): A {
    if n == 0 then a
    else
      var b := Repeat(process, a, log, n - 1);
      process(b, log).GetOr(b)
  }

  function Count(ps: seq<nat>, i: nat): nat {
    if ps == [] then 0 else Count(ps[..|ps| - 1], i) + if ps[|ps| - 1] == i then 1 else 0
  }

  /** Through its own lens a part sees what it would compute alone, once per mention. */
  lemma {:induction false} PlayedProjects<S(!new), A(!new), D, I, O>(
    parts: seq<Part<S, A, D, I, O>>, ps: seq<nat>, state: S, log: Log<D>, i: nat)
    requires Independent(parts) && i < |parts| && InRange(ps, |parts|)
    ensures parts[i].lens.get(Played(parts, ps, state, log).GetOr(state)) ==
            Repeat(parts[i].process, parts[i].lens.get(state), log, Count(ps, i))
  {
    if ps != [] {
      var init, last := ps[..|ps| - 1], ps[|ps| - 1];
      PlayedProjects(parts, init, state, log, i);
      var soFar := Played(parts, init, state, log).GetOr(state);
      var p := parts[last];
      var result := p.process(p.lens.get(soFar), log);
      if result.Some? {
        if last == i {
          assert Lawful(p.lens);
        } else {
          assert Apart(p.lens, parts[i].lens);
        }
        assert Played(parts, ps, state, log) == Some(p.lens.put(result.value, soFar));
      }
    }
  }

  lemma {:induction false} CountAppend(xs: seq<nat>, ys: seq<nat>, i: nat)
    ensures Count(xs + ys, i) == Count(xs, i) + Count(ys, i)
  {
    if ys == [] {
      assert xs + ys == xs;
    } else {
      assert (xs + ys)[..|xs + ys| - 1] == xs + ys[..|ys| - 1];
      CountAppend(xs, ys[..|ys| - 1], i);
    }
  }

  lemma {:induction false} CountTimes(p: nat, n: nat, i: nat)
    ensures Count(Times(p, n), i) == if p == i then n else 0
  {
    if n > 0 {
      assert Times(p, n)[..n - 1] == Times(p, n - 1);
      CountTimes(p, n - 1, i);
    }
  }

  lemma {:induction false} CountSubscribers<S, A, D, I, O>(parts: seq<Part<S, A, D, I, O>>, key: string, i: nat)
    ensures Count(Subscribers(parts, key), i) == if i < |parts| then Mentions(parts[i].addresses, key) else 0
  {
    if parts != [] {
      var last := |parts| - 1;
      CountSubscribers(parts[..last], key, i);
      CountAppend(Subscribers(parts[..last], key), Times(last, Mentions(parts[last].addresses, key)), i);
      CountTimes(last, Mentions(parts[last].addresses, key), i);
    }
  }

  // ----- runs -----

  ghost function OneLog<S, A, D, I, O>(parts: seq<Part<S, A, D, I, O>>, state: S, log: Log<D>): Option<S> {
    SubscribersInRange(parts, Lower(log.address));
    Played(parts, Subscribers(parts, Lower(log.address)), state, log)
  }

  ghost function RunComposed<S, A, D, I, O>(parts: seq<Part<S, A, D, I, O>>, state: S, logs: seq<Log<D>>): S {
    if logs == [] then state
    else
      var before := RunComposed(parts, state, logs[..|logs| - 1]);
      OneLog(parts, before, logs[|logs| - 1]).GetOr(before)
  }

  /** The part alone, on the logs of its own addresses. */
  function RunPart<S, A, D, I, O>(part: Part<S, A, D, I, O>, a: A, logs: seq<Log<D>>): A {
    if logs == [] then a
    else
      var before := RunPart(part, a, logs[..|logs| - 1]);
      var log := logs[|logs| - 1];
      if Mentions(part.addresses, Lower(log.address)) == 0 then before
      else part.process(before, log).GetOr(before)
  }

  /** No part names an address twice, whatever the case. */
  ghost predicate DistinctAddresses<S, A, D, I, O>(parts: seq<Part<S, A, D, I, O>>) {
    forall i, key | 0 <= i < |parts| :: Mentions(parts[i].addresses, key) <= 1
  }

  /** Main result: looking through the lens of a part, the composed subscriber behaves as the part
      run alone on its own logs. */
  lemma {:induction false} ComposedSimulatesParts<S(!new), A(!new), D, I, O>(
    parts: seq<Part<S, A, D, I, O>>, state: S, logs: seq<Log<D>>, i: nat)
    requires Independent(parts) && DistinctAddresses(parts) && i < |parts|
    ensures parts[i].lens.get(RunComposed(parts, state, logs)) == RunPart(parts[i], parts[i].lens.get(state), logs)
  {
    if logs != [] {
      var init, log := logs[..|logs| - 1], logs[|logs| - 1];
      ComposedSimulatesParts(parts, state, init, i);
      var before := RunComposed(parts, state, init);
      var key := Lower(log.address);
      SubscribersInRange(parts, key);
      PlayedProjects(parts, Subscribers(parts, key), before, log, i);
      CountSubscribers(parts, key, i);
      assert Mentions(parts[i].addresses, key) <= 1;
      RepeatOnce(parts[i].process, parts[i].lens.get(before), log);
    }
  }

  lemma RepeatOnce<A, D>(process: (A, Log<D>) -> Option<A>, a: A, log: Log<D>)
    ensures Repeat(process, a, log, 0) == a
    ensures Repeat(process, a, log, 1) == process(a, log).GetOr(a)
  {
    assert Repeat(process, a, log, 0) == a;
  }

  function Increment(a: int, log: Log<int>): Option<int> {
    Some(a + 1)
  }

  function Identity(): Lens<int, int> {
    Lens(s => s, (a, s) => a)
  }

  /** One part on its own, looking at the whole state. */
  function OnePart(addresses: seq<string>, process: (int, Log<int>) -> Option<int>): Part<int, int, int, int, int> {
    Part(addresses, Identity(), process, [], _ => 0)
  }

  /** It sees a log as often as it names its address. */
  lemma MentionsCount(addresses: seq<string>, log: Log<int>)
    ensures var part := OnePart(addresses, Increment);
            var n := Mentions(addresses, Lower(log.address));
            && Independent([part])
            && RunComposed([part], 0, [log]) == n
            && RunPart(part, 0, [log]) == if n == 0 then 0 else 1
  {
    var part := OnePart(addresses, Increment);
    var key := Lower(log.address);
    SubscribersInRange([part], key);
    PlayedProjects([part], Subscribers([part], key), 0, log, 0);
    CountSubscribers([part], key, 0);
    IncrementsCount(0, log, Mentions(addresses, key));
    assert [log][..0] == [];
    assert RunComposed([part], 0, [log]) == OneLog([part], 0, log).GetOr(0);
  }

  lemma {:induction false} IncrementsCount(a: int, log: Log<int>, n: nat)
    ensures Repeat(Increment, a, log, n) == a + n
  {
    if n > 0 {
      IncrementsCount(a, log, n - 1);
    }
  }

  /** Every part with these addresses is simulated exactly when none of them is named twice. */
  lemma SimulatedIffDistinct(addresses: seq<string>)
    ensures (forall process, state, logs ::
               RunComposed([OnePart(addresses, process)], state, logs) ==
               RunPart(OnePart(addresses, process), state, logs)) <==>
            AllDistinct(addresses)
  {
    NamedTwice(addresses);
    if key :| Mentions(addresses, key) > 1 {
      MentionedIsLower(addresses, key);
      var log := Log(0, 0, key, 0);
      MentionsCount(addresses, log);
      assert RunComposed([OnePart(addresses, Increment)], 0, [log]) != RunPart(OnePart(addresses, Increment), 0, [log]);
    } else {
      forall process, state, logs
        ensures RunComposed([OnePart(addresses, process)], state, logs) ==
                RunPart(OnePart(addresses, process), state, logs)
      {
        ComposedSimulatesParts([OnePart(addresses, process)], state, logs, 0);
      }
    }
  }

  lemma {:induction false} MentionedIsLower(addresses: seq<string>, key: string)
    requires Mentions(addresses, key) > 0
    ensures Lower(key) == key
  {
    var last := |addresses| - 1;
    if Lower(addresses[last]) == key {
      LowerTwice(addresses[last]);
    } else {
      MentionedIsLower(addresses[..last], key);
    }
  }

  // ----- the class -----

  function InputLists<S, A, D, I, O>(parts: seq<Part<S, A, D, I, O>>): (lists: seq<seq<I>>)
    ensures |lists| == |parts|
  {
    seq(|parts|, i requires 0 <= i < |parts| => parts[i].inputs)
  }

  /** The index holds, for every key, the subscribers wanted for it, and no key without any. */
  ghost predicate Indexes(index: map<string, seq<nat>>, want: string -> seq<nat>) {
    forall key {:trigger want(key)} {:trigger key in index} ::
      (key in index <==> want(key) != []) && (key in index ==> index[key] == want(key))
  }

  ghost function Wanted(base: string -> seq<nat>, i: nat, addresses: seq<string>): string -> seq<nat> {
    key => base(key) + Times(i, Mentions(addresses, key))
  }

  lemma WantNothing(index: map<string, seq<nat>>, base: string -> seq<nat>, i: nat)
    requires Indexes(index, base)
    ensures Indexes(index, Wanted(base, i, []))
  {
    forall key
      ensures Wanted(base, i, [])(key) == base(key)
    {
      assert base(key) + Times(i, 0) == base(key);
    }
  }

  lemma WantOneMore(index: map<string, seq<nat>>, base: string -> seq<nat>, i: nat, addresses: seq<string>, a: string)
    requires Indexes(index, Wanted(base, i, addresses))
    ensures Indexes(index[Lower(a) := (if Lower(a) in index then index[Lower(a)] else []) + [i]],
                    Wanted(base, i, addresses + [a]))
  {
    var want, next := Wanted(base, i, addresses), Wanted(base, i, addresses + [a]);
    assert (addresses + [a])[..|addresses + [a]| - 1] == addresses;
    forall key
      ensures next(key) == if key == Lower(a) then want(key) + [i] else want(key)
    {
      var n := Mentions(addresses, key);
      assert Times(i, n + 1) == Times(i, n) + [i];
      assert base(key) + (Times(i, n) + [i]) == base(key) + Times(i, n) + [i];
    }
  }

  /** The addresses are one for each key. */
  ghost predicate NamesKeys(addresses: seq<string>, keys: set<string>) {
    && (forall a | 0 <= a < |addresses| :: Lower(addresses[a]) in keys)
    && (forall key | key in keys :: Named(addresses, key))
    && AllApart(addresses)
  }

  ghost predicate AllApart(addresses: seq<string>) {
    forall a, b | 0 <= a < b < |addresses| :: Lower(addresses[a]) != Lower(addresses[b])
  }

  ghost predicate Named(addresses: seq<string>, key: string) {
    exists a :: 0 <= a < |addresses| && Lower(addresses[a]) == key
  }

  lemma OneKeyMore(addresses: seq<string>, keys: set<string>, address: string, k: string)
    requires NamesKeys(addresses, keys) && k == Lower(address) && k !in keys
    ensures NamesKeys(addresses + [address], keys + {k})
  {
    forall key | key in keys + {k}
      ensures Named(addresses + [address], key)
    {
      if key in keys {
        NamedStill(addresses, addresses + [address], key);
      } else {
        NamedAt(addresses + [address], |addresses|, key);
      }
    }
  }

  lemma NewKey(addresses: seq<string>, index: map<string, seq<nat>>, address: string, k: string)
    requires NamesKeys(addresses, index.Keys) && k == Lower(address) && k !in index
    ensures NamesKeys(addresses + [address], index[k := []].Keys)
  {
    OneKeyMore(addresses, index.Keys, address, k);
    assert index[k := []].Keys == index.Keys + {k};
  }

  lemma OldKey(addresses: seq<string>, index: map<string, seq<nat>>, k: string, parts: seq<nat>)
    requires NamesKeys(addresses, index.Keys) && k in index
    ensures NamesKeys(addresses, index[k := parts].Keys)
  {
    assert index[k := parts].Keys == index.Keys;
  }

  lemma NamedAt(addresses: seq<string>, a: nat, key: string)
    requires a < |addresses| && Lower(addresses[a]) == key
    ensures Named(addresses, key)
  {
  }

  lemma NamedStill(addresses: seq<string>, addresses': seq<string>, key: string)
    requires Named(addresses, key) && addresses <= addresses'
    ensures Named(addresses', key)
  {
    var a :| 0 <= a < |addresses| && Lower(addresses[a]) == key;
    NamedAt(addresses', a, key);
  }

  /** Slice `i` of the multicall inputs holds the inputs of part `i`. */
  ghost predicate Slices<S, A, D, I, O>(slices: seq<(nat, nat)>, inputs: seq<I>, parts: seq<Part<S, A, D, I, O>>,
                                        n: nat)
    requires n <= |parts|
  {
    && n <= |slices|
    && forall i | 0 <= i < n ::
         && slices[i].0 <= slices[i].1 <= |inputs|
         && inputs[slices[i].0..slices[i].1] == parts[i].inputs
  }

  lemma SliceMore<S, A, D, I, O>(slices: seq<(nat, nat)>, inputs: seq<I>, parts: seq<Part<S, A, D, I, O>>, n: nat,
                                 slices': seq<(nat, nat)>, inputs': seq<I>)
    requires n < |parts| && |slices| == n && Slices(slices, inputs, parts, n)
    requires slices' == slices + [(|inputs|, |inputs'|)] && inputs' == inputs + parts[n].inputs
    ensures Slices(slices', inputs', parts, n + 1)
  {
    forall i | 0 <= i < n
      ensures inputs'[slices[i].0..slices[i].1] == inputs[slices[i].0..slices[i].1]
    {
    }
    assert inputs'[|inputs|..] == parts[n].inputs;
  }

  class ComposedEventSubscriber<S(!new), A(!new), D, I, O> {
    const parts: seq<Part<S, A, D, I, O>>
    const blankState: S
    var addressesSubscribed: seq<string>
    var addressSubscribers: map<string, seq<nat>>
    var multiCallInputs: seq<I>
    var multiCallSlices: seq<(nat, nat)>

    /** The index and the slices say exactly what the parts ask for. */
    ghost predicate Valid()
      reads this
    {
      && Indexes(addressSubscribers, key => Subscribers(parts, key))
      && OnePerKey()
      && multiCallInputs == Flatten(InputLists(parts))
      && |multiCallSlices| == |parts|
      && Sliced(|parts|)
    }

    ghost predicate OnePerKey()
      reads this
    {
      NamesKeys(addressesSubscribed, addressSubscribers.Keys)
    }

    ghost predicate Sliced(n: nat)
      requires n <= |parts|
      reads this
    {
      Slices(multiCallSlices, multiCallInputs, parts, n)
    }

    constructor (parts: seq<Part<S, A, D, I, O>>, blankState: S)
      ensures Valid() && this.parts == parts && this.blankState == blankState
    {
      this.parts, this.blankState := parts, blankState;
      addressesSubscribed, addressSubscribers := [], map[];
      multiCallInputs, multiCallSlices := [], [];
      new;
      for i := 0 to |parts|
        invariant this.parts == parts && this.blankState == blankState
        invariant multiCallInputs == [] && multiCallSlices == [] && OnePerKey()
        invariant Indexes(addressSubscribers, key => Subscribers(parts[..i], key))
      {
        SubscribePart(i, key => Subscribers(parts[..i], key));
        assert parts[..i + 1][..i] == parts[..i];
        assert parts[i].addresses[..|parts[i].addresses|] == parts[i].addresses;
      }
      assert parts[..|parts|] == parts;
      SliceInputs();
    }

    /** The inner loop over the addresses of one part. */
    method SubscribePart(i: nat, ghost base: string -> seq<nat>)
      requires i < |parts| && OnePerKey() && Indexes(addressSubscribers, base)
      modifies this`addressesSubscribed, this`addressSubscribers
      ensures OnePerKey() && Indexes(addressSubscribers, Wanted(base, i, parts[i].addresses))
    {
      var addresses := parts[i].addresses;
      WantNothing(addressSubscribers, base, i);
      for j := 0 to |addresses|
        invariant OnePerKey()
        invariant Indexes(addressSubscribers, Wanted(base, i, addresses[..j]))
      {
        assert addresses[..j + 1] == addresses[..j] + [addresses[j]];
        WantOneMore(addressSubscribers, base, i, addresses[..j], addresses[j]);
        SubscribeAddress(i, addresses[j]);
      }
      assert addresses[..|addresses|] == addresses;
    }

    method SubscribeAddress(i: nat, address: string)
      requires OnePerKey()
      modifies this`addressesSubscribed, this`addressSubscribers
      ensures OnePerKey()
      ensures var k, index := Lower(address), old(addressSubscribers);
              addressSubscribers == index[k := (if k in index then index[k] else []) + [i]]
    {
      var k := Lower(address);
      if k !in addressSubscribers {
        NewKey(addressesSubscribed, addressSubscribers, address, k);
        addressSubscribers := addressSubscribers[k := []];
        addressesSubscribed := addressesSubscribed + [address];
      }
      OldKey(addressesSubscribed, addressSubscribers, k, addressSubscribers[k] + [i]);
      addressSubscribers := addressSubscribers[k := addressSubscribers[k] + [i]];
    }

    /** Lays the inputs of all parts end to end and remembers where each part's lie. */
    method SliceInputs()
      requires multiCallInputs == [] && multiCallSlices == []
      modifies this`multiCallInputs, this`multiCallSlices
      ensures multiCallInputs == Flatten(InputLists(parts)) && |multiCallSlices| == |parts| && Sliced(|parts|)
    {
      var start := 0;
      var lists := InputLists(parts);
      for i := 0 to |parts|
        invariant |multiCallSlices| == i && start == |multiCallInputs|
        invariant multiCallInputs == Flatten(lists[..i]) && Slices(multiCallSlices, multiCallInputs, parts, i)
      {
        FlattenNext(lists, i);
        ghost var slices, inputs := multiCallSlices, multiCallInputs;
        var more := parts[i].inputs;
        assert lists[i] == more;
        var slice: (nat, nat) := (start, start + |more|);
        multiCallSlices := multiCallSlices + [slice];
        multiCallInputs := multiCallInputs + more;
        SliceMore(slices, inputs, parts, i, multiCallSlices, multiCallInputs);
        start := start + |more|;
      }
      assert lists[..|parts|] == lists;
    }

    /** `processLog` */
    method ProcessLog(state: S, log: Log<D>) returns (newState: Option<S>)
      requires Valid()
      ensures newState == OneLog(parts, state, log)
    {
      var key := Lower(log.address);
      SubscribersInRange(parts, key);
      if key !in addressSubscribers {
        return None;
      }
      var ps := addressSubscribers[key];
      newState := None;
      for k := 0 to |ps|
        invariant InRange(ps[..k], |parts|) && newState == Played(parts, ps[..k], state, log)
      {
        assert ps[..k + 1][..k] == ps[..k];
        var p := parts[ps[k]];
        var result := p.process(p.lens.get(newState.GetOr(state)), log);
        if result.Some? {
          newState := Some(p.lens.put(result.value, newState.GetOr(state)));
        }
      }
      assert ps[..|ps|] == ps;
    }

    /** `generateState`: `aggregate` answers every input of the multicall, in order. */
    method GenerateState(aggregate: I -> O) returns (state: S)
      requires Valid() && Independent(parts)
      ensures forall i | 0 <= i < |parts| ::
                parts[i].lens.get(state) == parts[i].generate(Answers(aggregate, parts[i].inputs))
    {
      var returnData := Answers(aggregate, multiCallInputs);
      state := blankState;
      for i := 0 to |parts|
        invariant forall j | 0 <= j < i ::
                    parts[j].lens.get(state) == parts[j].generate(Answers(aggregate, parts[j].inputs))
      {
        var (from, to) := multiCallSlices[i];
        var part := parts[i].generate(returnData[from..to]);
        assert returnData[from..to] == Answers(aggregate, parts[i].inputs);
        ghost var before := state;
        state := parts[i].lens.put(part, state);
        assert Lawful(parts[i].lens);
        forall j | 0 <= j < i
          ensures parts[j].lens.get(state) == parts[j].lens.get(before)
        {
          assert Apart(parts[i].lens, parts[j].lens);
        }
      }
    }
  }

  function Answers<I, O>(aggregate: I -> O, inputs: seq<I>): (outputs: seq<O>)
    ensures |outputs| == |inputs| && forall i | 0 <= i < |inputs| :: outputs[i] == aggregate(inputs[i])
  {
    seq(|inputs|, i requires 0 <= i < |inputs| => aggregate(inputs[i]))
  }
}
