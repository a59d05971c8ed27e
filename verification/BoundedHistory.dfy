/** What every interleaving of the steps keeps, and that the pruned history answers every lookup
    the way a history that is never pruned would. */
module BoundedHistory {
  import opened Wrappers
  import opened Steps

  /** One atomic step. The groups of logs of one `update` call are separate steps, so that other
      steps may fall between them; `EndUpdate` is the clearing of the flag at its end. */
  datatype Op<+S, +D> =
    | Set(state: S, bn: nat)
    | Block(bn: nat, logs: seq<Log<D>>, regen: S)
    | EndUpdate
    | RollbackTo(bn: nat)
    | RestartAt(bn: nat)
    | Invalidate
    | Inactivate

  ghost function Step<S, D>(prune: bool, process: (S, Log<D>) -> Option<S>, s: Snapshot<S>,
                            op: Op<S, D>): Snapshot<S> {
    match op
    case Set(state, bn) => SetState(prune, s, state, bn)
    case Block(bn, logs, regen) => BlockStep(prune, process, s, bn, logs, regen)
    case EndUpdate => s.(invalid := false)
    case RollbackTo(bn) => Rollback(s, bn)
    case RestartAt(bn) => Restart(s, bn)
    case Invalidate => s.(invalid := true)
    case Inactivate => s.(inactive := true)
  }

  ghost function Run<S, D>(prune: bool, process: (S, Log<D>) -> Option<S>, ops: seq<Op<S, D>>): Snapshot<S> {
    if ops == [] then Initial() else Step(prune, process, Run(prune, process, ops[..|ops| - 1]), ops[|ops| - 1])
  }

  // ----- reachable states -----

  ghost predicate WellFormed<S>(s: Snapshot<S>) {
    && 0 !in s.history
    && (s.state.None? ==> s.history == map[])
    && (s.state.Some? ==>
          && s.block in s.history && s.history[s.block] == s.state.value
          && forall k | k in s.history :: k <= s.block)
  }

  /** At most one entry is as old as the pruning bound. */
  ghost predicate Short<S>(s: Snapshot<S>) {
    forall j, k | j in s.history && k in s.history && j <= k && k + MAX_BLOCKS_HISTORY <= s.block :: j == k
  }

  lemma SetStateKeeps<S>(prune: bool, s: Snapshot<S>, state: S, bn: nat)
    requires WellFormed(s) && (prune ==> Short(s))
    ensures var t := SetState(prune, s, state, bn); WellFormed(t) && (prune ==> Short(t))
    ensures bn > 0 ==> SetState(prune, s, state, bn).state.Some?
  {
    if bn > 0 {
      var h := s.history[bn := state];
      var block := if s.state.None? || s.block <= bn then bn else s.block;
      assert block in h && !Superseded(h.Keys, block, block - MAX_BLOCKS_HISTORY);
    }
  }

  lemma BlockKeeps<S, D>(prune: bool, process: (S, Log<D>) -> Option<S>, s: Snapshot<S>, bn: nat, logs: seq<Log<D>>,
                         regen: S)
    requires WellFormed(s) && (prune ==> Short(s))
    ensures var t := BlockStep(prune, process, s, bn, logs, regen); WellFormed(t) && (prune ==> Short(t))
  {
    var s1 := if s.state.None? then SetState(prune, s, regen, bn) else s;
    SetStateKeeps(prune, s, regen, bn);
    LatestKeyNone(s1.history.Keys, bn);
    match LatestKey(s1.history.Keys, bn) {
      case None =>
      case Some(k) =>
        match BlockResult(process, s1.history[k], logs) {
          case None =>
          case Some(next) => SetStateKeeps(prune, s1, next, bn);
        }
    }
  }

  lemma RollbackStepKeeps<S>(prune: bool, s: Snapshot<S>, bn: nat)
    requires WellFormed(s) && (prune ==> Short(s))
    ensures var t := Rollback(s, bn); WellFormed(t) && (prune ==> Short(t))
  {
    LatestKeyNone(s.history.Keys, bn + 1);
    assert LatestKey(s.history.Keys, bn + 1).None? ==> KeepUpTo(s.history, bn, bn) == map[];
  }

  lemma RestartStepKeeps<S>(prune: bool, s: Snapshot<S>, bn: nat)
    requires WellFormed(s) && (prune ==> Short(s))
    ensures var t := Restart(s, bn); WellFormed(t) && (prune ==> Short(t))
  {
    assert s.block < bn || s.state.None? ==> KeepFrom(s.history, bn) == map[];
  }

  lemma StepKeeps<S, D>(prune: bool, process: (S, Log<D>) -> Option<S>, s: Snapshot<S>, op: Op<S, D>)
    requires WellFormed(s) && (prune ==> Short(s))
    ensures var t := Step(prune, process, s, op); WellFormed(t) && (prune ==> Short(t))
  {
    match op
    case Set(state, bn) => SetStateKeeps(prune, s, state, bn);
    case Block(bn, logs, regen) => BlockKeeps(prune, process, s, bn, logs, regen);
    case RollbackTo(bn) => RollbackStepKeeps(prune, s, bn);
    case RestartAt(bn) => RestartStepKeeps(prune, s, bn);
    case _ =>
  }

  /** In every reachable state, after any interleaving of the steps: the state is absent exactly
      when the history is empty; otherwise it is the entry with the largest key. */
  lemma {:induction false} ReachableWellFormed<S, D>(prune: bool, process: (S, Log<D>) -> Option<S>,
                                                     ops: seq<Op<S, D>>)
    ensures WellFormed(Run(prune, process, ops))
    ensures prune ==> Short(Run(prune, process, ops))
    ensures var s := Run(prune, process, ops); s.state.None? <==> s.history == map[]
  {
    if ops != [] {
      var before := ops[..|ops| - 1];
      ReachableWellFormed(prune, process, before);
      StepKeeps(prune, process, Run(prune, process, before), ops[|ops| - 1]);
    }
  }

  lemma {:induction false} AtMost(keys: set<nat>, low: int, n: nat)
    requires forall k | k in keys :: low < k <= low + n
    ensures |keys| <= n
  {
    if n > 0 {
      AtMost(keys - {low + n}, low, n - 1);
    } else {
      assert keys == {};
    }
  }

  lemma ReachableHistorySize<S, D>(process: (S, Log<D>) -> Option<S>, ops: seq<Op<S, D>>)
    ensures |Run(true, process, ops).history| <= 8
  {
    var s := Run(true, process, ops);
    ReachableWellFormed(true, process, ops);
    var keys := s.history.Keys;
    var recent := set k | k in keys && s.block - MAX_BLOCKS_HISTORY < k;
    AtMost(recent, s.block - MAX_BLOCKS_HISTORY, MAX_BLOCKS_HISTORY);
    if oldest :| oldest in keys && oldest + MAX_BLOCKS_HISTORY <= s.block {
      assert keys == recent + {oldest};
    } else {
      assert keys == recent;
    }
  }

  // ----- the twin that is never pruned -----

  /** The highest block number of the state over a run. */
  ghost function HighWater<S, D>(process: (S, Log<D>) -> Option<S>, ops: seq<Op<S, D>>): nat {
    if ops == [] then 0
    else
      var h, b := HighWater(process, ops[..|ops| - 1]), Run(true, process, ops).block;
      if h < b then b else h
  }

  /** A rollback reaches no further back than the bound below the high-water mark, and logs are
      played only for blocks above it, unless there is no older state to lose. */
  ghost predicate Near<S, D>(high: nat, s: Snapshot<S>, op: Op<S, D>) {
    match op
    case RollbackTo(bn) => bn == 0 || high <= bn + MAX_BLOCKS_HISTORY
    case Block(bn, _, _) => bn <= 1 || s.state.None? || high < bn + MAX_BLOCKS_HISTORY
    case _ => true
  }

  ghost predicate NearRun<S, D>(process: (S, Log<D>) -> Option<S>, ops: seq<Op<S, D>>) {
    ops != [] ==>
      var before := ops[..|ops| - 1];
      NearRun(process, before) &&
      Near(HighWater(process, before), Run(true, process, before), ops[|ops| - 1])
  }

  /** The pruned subscriber `p` is the unpruned one `u` but for a thinner history. */
  ghost predicate Refines<S>(p: Snapshot<S>, u: Snapshot<S>, high: nat) {
    && p.state == u.state && p.block == u.block && p.invalid == u.invalid && p.inactive == u.inactive
    && p.block <= high
    && Thinner(p.history, u.history, high - MAX_BLOCKS_HISTORY)
  }

  /** `p` is `u` with some entries missing, each followed in `p` by a later entry at or below the bound. */
  ghost predicate Thinner<S>(p: map<nat, S>, u: map<nat, S>, bound: int) {
    && p.Keys <= u.Keys
    && (forall k | k in p :: p[k] == u[k])
    && (forall k | k in u && k !in p :: Superseded(p.Keys, k, bound))
  }

  lemma SameLatest<S>(p: Snapshot<S>, u: Snapshot<S>, high: nat, b: nat)
    requires Refines(p, u, high) && high < b + MAX_BLOCKS_HISTORY
    ensures LatestKey(p.history.Keys, b) == LatestKey(u.history.Keys, b)
  {
    forall k | k in u.history.Keys && k < b
      ensures Covered(p.history.Keys, k, b)
    {
      if k !in p.history {
        var j :| j in p.history.Keys && k < j <= high - MAX_BLOCKS_HISTORY;
      }
    }
    SameLatestKey(p.history.Keys, u.history.Keys, b);
  }

  /** Some key is at or after `k` and before `b`. */
  ghost predicate Covered(keys: set<nat>, k: nat, b: nat) {
    exists j :: j in keys && k <= j < b
  }

  lemma SameLatestKey(p: set<nat>, u: set<nat>, b: nat)
    requires p <= u && forall k | k in u && k < b :: Covered(p, k, b)
    ensures LatestKey(p, b) == LatestKey(u, b)
  {
    LatestKeyNone(p, b);
    LatestKeyNone(u, b);
    if LatestKey(u, b).Some? {
      var k := LatestKey(u, b).value;
      assert Covered(p, k, b);
      var j :| j in p && k <= j < b;
      assert j == k;
      LatestKeyIs(p, b, k);
    }
  }

  lemma SetStateRefines<S>(p: Snapshot<S>, u: Snapshot<S>, high: nat, state: S, bn: nat)
    requires Refines(p, u, high)
    ensures var p' := SetState(true, p, state, bn);
            Refines(p', SetState(false, u, state, bn), if high < p'.block then p'.block else high)
  {
    if bn > 0 {
      var p', u' := SetState(true, p, state, bn), SetState(false, u, state, bn);
      var m := p'.block - MAX_BLOCKS_HISTORY;
      var high' := if high < p'.block then p'.block else high;
      var bound' := high' - MAX_BLOCKS_HISTORY;
      SetHistories(p, u, state, bn);
      SetOtherFields(p, u, state, bn);
      SetThinner(p.history, u.history, high - MAX_BLOCKS_HISTORY, state, bn, m, bound', p'.history, u'.history);
      assert Refines(p', u', high');
    }
  }

  lemma SetHistories<S>(p: Snapshot<S>, u: Snapshot<S>, state: S, bn: nat)
    requires bn > 0
    ensures var p' := SetState(true, p, state, bn);
            p'.history == Prune(p.history[bn := state], p'.block - MAX_BLOCKS_HISTORY)
    ensures SetState(false, u, state, bn).history == u.history[bn := state]
  {
  }

  lemma SetOtherFields<S>(p: Snapshot<S>, u: Snapshot<S>, state: S, bn: nat)
    requires p.state == u.state && p.block == u.block && p.invalid == u.invalid && p.inactive == u.inactive
    ensures var p', u' := SetState(true, p, state, bn), SetState(false, u, state, bn);
            p'.state == u'.state && p'.block == u'.block && p'.invalid == u'.invalid && p'.inactive == u'.inactive
  {
  }

  lemma SetThinner<S>(p: map<nat, S>, u: map<nat, S>, bound: int, state: S, bn: nat, m: int, bound': int,
                      g: map<nat, S>, u': map<nat, S>)
    requires Thinner(p, u, bound) && m <= bound' && bound <= bound'
    requires g == Prune(p[bn := state], m) && u' == u[bn := state]
    ensures Thinner(g, u', bound')
  {
    var h := p[bn := state];
    assert h.Keys == p.Keys + {bn};
    forall k | k in u' && k !in g
      ensures Superseded(g.Keys, k, bound')
    {
      if k in h {
        PruneLeavesLater(h, k, m);
      } else {
        assert k in u && Superseded(p.Keys, k, bound);
        StaysSuperseded(h, k, m, bound');
      }
    }
  }

  /** What a later entry replaces is still replaced after pruning. */
  lemma StaysSuperseded<S>(h: map<nat, S>, k: nat, m: int, bound: int)
    requires Superseded(h.Keys, k, bound) && m <= bound
    ensures Superseded(Prune(h, m).Keys, k, bound)
  {
    var j :| j in h.Keys && k < j <= bound;
    if j !in Prune(h, m) {
      PruneLeavesLater(h, j, m);
      var i :| i in Prune(h, m).Keys && j < i <= m;
    }
  }

  lemma {:induction false} PruneLeavesLater<S>(h: map<nat, S>, k: nat, m: int)
    requires Superseded(h.Keys, k, m)
    ensures Superseded(Prune(h, m).Keys, k, m)
    decreases m - k
  {
    var j :| j in h.Keys && k < j <= m;
    if Superseded(h.Keys, j, m) {
      PruneLeavesLater(h, j, m);
      var i :| i in Prune(h, m).Keys && j < i <= m;
    } else {
      assert j in Prune(h, m).Keys;
    }
  }

  lemma RollbackRefines<S>(p: Snapshot<S>, u: Snapshot<S>, high: nat, bn: nat)
    requires WellFormed(p) && WellFormed(u) && Refines(p, u, high)
    requires bn == 0 || high <= bn + MAX_BLOCKS_HISTORY
    ensures var p' := Rollback(p, bn); Refines(p', Rollback(u, bn), if high < p'.block then p'.block else high)
  {
    SameRollbackKey(p, u, high, bn);
    var p', u' := Rollback(p, bn), Rollback(u, bn);
    forall k | k in u'.history && k !in p'.history
      ensures Superseded(p'.history.Keys, k, high - MAX_BLOCKS_HISTORY)
    {
      assert k !in p.history;
      var j :| j in p.history.Keys && k < j <= high - MAX_BLOCKS_HISTORY;
      assert j in p'.history.Keys;
    }
  }

  lemma SameRollbackKey<S>(p: Snapshot<S>, u: Snapshot<S>, high: nat, bn: nat)
    requires WellFormed(p) && WellFormed(u) && Refines(p, u, high)
    requires bn == 0 || high <= bn + MAX_BLOCKS_HISTORY
    ensures LatestKey(p.history.Keys, bn + 1) == LatestKey(u.history.Keys, bn + 1)
    ensures var latest := LatestKey(p.history.Keys, bn + 1);
            latest.Some? ==> IsLatest(p.history.Keys, bn + 1, latest.value)
  {
    LatestKeyNone(p.history.Keys, bn + 1);
    LatestKeyNone(u.history.Keys, bn + 1);
    if bn > 0 {
      SameLatest(p, u, high, bn + 1);
    }
  }

  lemma RestartRefines<S>(p: Snapshot<S>, u: Snapshot<S>, high: nat, bn: nat)
    requires Refines(p, u, high)
    ensures var p' := Restart(p, bn); Refines(p', Restart(u, bn), if high < p'.block then p'.block else high)
  {
    var p', u' := Restart(p, bn), Restart(u, bn);
    forall k | k in u'.history && k !in p'.history
      ensures Superseded(p'.history.Keys, k, high - MAX_BLOCKS_HISTORY)
    {
      var j :| j in p.history.Keys && k < j <= high - MAX_BLOCKS_HISTORY;
      assert j in p'.history.Keys;
    }
  }

  lemma StepRefines<S, D>(process: (S, Log<D>) -> Option<S>, p: Snapshot<S>, u: Snapshot<S>, high: nat,
                          op: Op<S, D>)
    requires WellFormed(p) && WellFormed(u) && Refines(p, u, high) && Near(high, p, op)
    ensures var p' := Step(true, process, p, op);
            Refines(p', Step(false, process, u, op), if high < p'.block then p'.block else high)
  {
    match op
    case Set(state, bn) => SetStateRefines(p, u, high, state, bn);
    case Block(bn, logs, regen) => BlockRefines(process, p, u, high, bn, logs, regen);
    case RollbackTo(bn) => RollbackRefines(p, u, high, bn);
    case RestartAt(bn) => RestartRefines(p, u, high, bn);
    case _ =>
  }

  lemma BlockRefines<S, D>(process: (S, Log<D>) -> Option<S>, p: Snapshot<S>, u: Snapshot<S>, high: nat,
                           bn: nat, logs: seq<Log<D>>, regen: S)
    requires WellFormed(p) && WellFormed(u) && Refines(p, u, high)
    requires bn <= 1 || p.state.None? || high < bn + MAX_BLOCKS_HISTORY
    ensures var p' := BlockStep(true, process, p, bn, logs, regen);
            Refines(p', BlockStep(false, process, u, bn, logs, regen), if high < p'.block then p'.block else high)
  {
    if p.state.None? {
      var p1, u1 := SetState(true, p, regen, bn), SetState(false, u, regen, bn);
      SetStateRefines(p, u, high, regen, bn);
      LatestKeyNone(p1.history.Keys, bn);
      LatestKeyNone(u1.history.Keys, bn);
      assert LatestKey(p1.history.Keys, bn) == None == LatestKey(u1.history.Keys, bn);
    } else {
      LatestKeyNone(p.history.Keys, bn);
      LatestKeyNone(u.history.Keys, bn);
      if bn > 1 {
        SameLatest(p, u, high, bn);
      }
      match LatestKey(p.history.Keys, bn) {
        case None =>
        case Some(k) =>
          match BlockResult(process, p.history[k], logs) {
            case None =>
            case Some(next) => SetStateRefines(p, u, high, next, bn);
          }
      }
    }
  }

  lemma {:induction false} RunRefines<S, D>(process: (S, Log<D>) -> Option<S>, ops: seq<Op<S, D>>)
    requires NearRun(process, ops)
    ensures Refines(Run(true, process, ops), Run(false, process, ops), HighWater(process, ops))
  {
    if ops != [] {
      var before := ops[..|ops| - 1];
      RunRefines(process, before);
      ReachableWellFormed(true, process, before);
      ReachableWellFormed(false, process, before);
      StepRefines(process, Run(true, process, before), Run(false, process, before),
                  HighWater(process, before), ops[|ops| - 1]);
    }
  }

  ghost function StateAt<S>(s: Snapshot<S>, b: nat): Option<S> {
    LatestKeyNone(s.history.Keys, b + 1);
    match LatestKey(s.history.Keys, b + 1)
    case Some(k) => Some(s.history[k])
    case None => None
  }

  /** Main result: pruning is invisible. After a run that stays near the high-water mark, the
      current state, its block, the flags and the latest state at or before every block from the
      bound on are those of the twin that never prunes. */
  lemma PruningInvisible<S, D>(process: (S, Log<D>) -> Option<S>, ops: seq<Op<S, D>>, b: nat)
    requires NearRun(process, ops)
    ensures var p, u := Run(true, process, ops), Run(false, process, ops);
            && p.state == u.state && p.block == u.block && p.invalid == u.invalid
            && (HighWater(process, ops) <= b + MAX_BLOCKS_HISTORY ==> StateAt(p, b) == StateAt(u, b))
  {
    RunRefines(process, ops);
    if HighWater(process, ops) <= b + MAX_BLOCKS_HISTORY {
      SameStateAt(Run(true, process, ops), Run(false, process, ops), HighWater(process, ops), b);
    }
  }

  lemma SameStateAt<S>(p: Snapshot<S>, u: Snapshot<S>, high: nat, b: nat)
    requires Refines(p, u, high) && high <= b + MAX_BLOCKS_HISTORY
    ensures StateAt(p, b) == StateAt(u, b)
  {
    SameLatest(p, u, high, b + 1);
    LatestKeyNone(p.history.Keys, b + 1);
  }

  // ----- the bound cannot be weakened -----

  lemma RunAppend<S, D>(prune: bool, process: (S, Log<D>) -> Option<S>, ops: seq<Op<S, D>>, op: Op<S, D>)
    ensures Run(prune, process, ops + [op]) == Step(prune, process, Run(prune, process, ops), op)
    ensures HighWater(process, ops + [op]) ==
            var h, b := HighWater(process, ops), Step(true, process, Run(true, process, ops), op).block;
            if h < b then b else h
    ensures NearRun(process, ops + [op]) <==>
            NearRun(process, ops) && Near(HighWater(process, ops), Run(true, process, ops), op)
  {
    assert (ops + [op])[..|ops + [op]| - 1] == ops;
  }

  function Increment(s: int, log: Log<int>): Option<int> {
    Some(s + 1)
  }

  /** Three states set one after the other, the last far enough away to prune the first. */
  function Ascent(first: nat, second: nat, high: nat): seq<Op<int, int>> {
    [Set(10, first)] + [Set(20, second)] + [Set(30, high)]
  }

  lemma SetNewest(prune: bool, s: Snapshot<int>, state: int, bn: nat, pruned: map<nat, int>)
    requires bn > 0 && (s.state.None? || s.block <= bn)
    requires prune ==> Prune(s.history[bn := state], bn - MAX_BLOCKS_HISTORY) == pruned
    requires !prune ==> s.history[bn := state] == pruned
    ensures SetState(prune, s, state, bn) == Snapshot(Some(state), bn, pruned, false, s.inactive)
  {
  }

  lemma AscentPruned(first: nat, second: nat, high: nat)
    requires 0 < first < second && second + MAX_BLOCKS_HISTORY <= high
    ensures Prune(map[first := 10], first - MAX_BLOCKS_HISTORY) == map[first := 10]
    ensures Prune(map[first := 10, second := 20], second - MAX_BLOCKS_HISTORY) == map[first := 10, second := 20]
    ensures Prune(map[first := 10, second := 20, high := 30], high - MAX_BLOCKS_HISTORY) ==
            map[second := 20, high := 30]
  {
    PruneKeepsAll(map[first := 10], first - MAX_BLOCKS_HISTORY);
    PruneKeepsAll(map[first := 10, second := 20], second - MAX_BLOCKS_HISTORY);
    OldestPruned(first, second, high);
  }

  lemma PruneKeepsAll(h: map<nat, int>, m: int)
    requires forall j, k | j in h && k in h && j < k :: m < k
    ensures Prune(h, m) == h
  {
  }

  lemma OldestPruned(first: nat, second: nat, high: nat)
    requires 0 < first < second && second + MAX_BLOCKS_HISTORY <= high
    ensures Prune(map[first := 10, second := 20, high := 30], high - MAX_BLOCKS_HISTORY) ==
            map[second := 20, high := 30]
  {
    var h: map<nat, int> := map[first := 10, second := 20, high := 30];
    assert second in h.Keys;
    assert Superseded(h.Keys, first, high - MAX_BLOCKS_HISTORY);
  }

  lemma AfterAscent(first: nat, second: nat, high: nat)
    requires 0 < first < second && second + MAX_BLOCKS_HISTORY <= high
    ensures var ops := Ascent(first, second, high);
            && NearRun(Increment, ops) && HighWater(Increment, ops) == high
            && Run(false, Increment, ops) ==
               Snapshot(Some(30), high, map[first := 10, second := 20, high := 30], false, false)
  {
    AfterAscentPruned(first, second, high);
    var one: seq<Op<int, int>> := [] + [Set(10, first)];
    var two := one + [Set(20, second)];
    RunAppend(false, Increment, [], Set(10, first));
    SetNewest(false, Initial(), 10, first, map[first := 10]);
    RunAppend(false, Increment, one, Set(20, second));
    SetNewest(false, Run(false, Increment, one), 20, second, map[first := 10, second := 20]);
    RunAppend(false, Increment, two, Set(30, high));
    SetNewest(false, Run(false, Increment, two), 30, high, map[first := 10, second := 20, high := 30]);
  }

  lemma AfterAscentPruned(first: nat, second: nat, high: nat)
    requires 0 < first < second && second + MAX_BLOCKS_HISTORY <= high
    ensures var ops := Ascent(first, second, high);
            && NearRun(Increment, ops) && HighWater(Increment, ops) == high
            && Run(true, Increment, ops) ==
               Snapshot(Some(30), high, map[second := 20, high := 30], false, false)
  {
    AscentPruned(first, second, high);
    var one: seq<Op<int, int>> := [] + [Set(10, first)];
    var two := one + [Set(20, second)];
    RunAppend(true, Increment, [], Set(10, first));
    SetNewest(true, Initial(), 10, first, map[first := 10]);
    RunAppend(true, Increment, one, Set(20, second));
    SetNewest(true, Run(true, Increment, one), 20, second, map[first := 10, second := 20]);
    RunAppend(true, Increment, two, Set(30, high));
    SetNewest(true, Run(true, Increment, two), 30, high, map[second := 20, high := 30]);
  }

  /** A rollback further back than the bound loses a state that the unpruned twin still has. */
  lemma FarRollbackDiffers(high: nat, bn: nat)
    requires 0 < bn && bn + MAX_BLOCKS_HISTORY < high
    ensures var ops := Ascent(bn, high - 7, high) + [Invalidate];
            && NearRun(Increment, ops) && HighWater(Increment, ops) == high
            && !Near(high, Run(true, Increment, ops), Op<int, int>.RollbackTo(bn))
            && Run(true, Increment, ops + [RollbackTo(bn)]).state == None
            && Run(false, Increment, ops + [RollbackTo(bn)]).state == Some(10)
  {
    var ops := Ascent(bn, high - 7, high) + [Invalidate];
    AfterAscentPruned(bn, high - 7, high);
    ThenInvalidated(Ascent(bn, high - 7, high), high, map[high - 7 := 20, high := 30]);
    InvalidatedTwin(bn, high);
    RunAppend(true, Increment, ops, RollbackTo(bn));
    RunAppend(false, Increment, ops, RollbackTo(bn));
    FarRollback(Run(true, Increment, ops), Run(false, Increment, ops), high, bn);
  }

  lemma ThenInvalidated(ops: seq<Op<int, int>>, high: nat, h: map<nat, int>)
    requires NearRun(Increment, ops) && HighWater(Increment, ops) == high
    requires Run(true, Increment, ops) == Snapshot(Some(30), high, h, false, false)
    ensures var ops' := ops + [Invalidate];
            && NearRun(Increment, ops') && HighWater(Increment, ops') == high
            && Run(true, Increment, ops') == Snapshot(Some(30), high, h, true, false)
  {
    InvalidateLast(ops);
  }

  lemma InvalidatedTwin(bn: nat, high: nat)
    requires 0 < bn && bn + MAX_BLOCKS_HISTORY < high
    ensures Run(false, Increment, Ascent(bn, high - 7, high) + [Invalidate]) ==
            Snapshot(Some(30), high, map[bn := 10, high - 7 := 20, high := 30], true, false)
  {
    AfterAscent(bn, high - 7, high);
    RunAppend(false, Increment, Ascent(bn, high - 7, high), Invalidate);
  }

  lemma InvalidateLast(ops: seq<Op<int, int>>)
    requires NearRun(Increment, ops) && Run(true, Increment, ops).block <= HighWater(Increment, ops)
    ensures var ops' := ops + [Invalidate];
            && NearRun(Increment, ops') && HighWater(Increment, ops') == HighWater(Increment, ops)
            && Run(true, Increment, ops') == Run(true, Increment, ops).(invalid := true)
            && Run(false, Increment, ops') == Run(false, Increment, ops).(invalid := true)
  {
    RunAppend(true, Increment, ops, Invalidate);
    RunAppend(false, Increment, ops, Invalidate);
  }

  lemma FarRollback(p: Snapshot<int>, u: Snapshot<int>, high: nat, bn: nat)
    requires 0 < bn && bn + MAX_BLOCKS_HISTORY < high
    requires p.invalid && p.history == map[high - 7 := 20, high := 30]
    requires u.invalid && u.history == map[bn := 10, high - 7 := 20, high := 30]
    ensures Rollback(p, bn).state == None && Rollback(u, bn).state == Some(10)
    ensures !Near(high, p, Op<int, int>.RollbackTo(bn))
  {
    LatestKeyNone(p.history.Keys, bn + 1);
    assert IsLatest(u.history.Keys, bn + 1, bn);
  }

  /** Logs of a block at or below the bound rewrite an entry of the unpruned twin only. */
  lemma FarLogsDiffer(high: nat, bn: nat, log: Log<int>)
    requires bn + MAX_BLOCKS_HISTORY <= high && bn > 1
    ensures var ops := Ascent(bn - 1, bn, high);
            && NearRun(Increment, ops) && HighWater(Increment, ops) == high
            && !Near(high, Run(true, Increment, ops), Block(bn, [log], 0))
            && StateAt(Run(true, Increment, ops + [Block(bn, [log], 0)]), high - 7) == Some(20)
            && StateAt(Run(false, Increment, ops + [Block(bn, [log], 0)]), high - 7) == Some(11)
  {
    var ops := Ascent(bn - 1, bn, high);
    AfterAscent(bn - 1, bn, high);
    AfterAscentPruned(bn - 1, bn, high);
    RunAppend(true, Increment, ops, Block(bn, [log], 0));
    RunAppend(false, Increment, ops, Block(bn, [log], 0));
    LateBlock(Run(true, Increment, ops), Run(false, Increment, ops), high, bn, log);
  }

  lemma LateBlock(p: Snapshot<int>, u: Snapshot<int>, high: nat, bn: nat, log: Log<int>)
    requires bn + MAX_BLOCKS_HISTORY <= high && bn > 1
    requires p == Snapshot(Some(30), high, map[bn := 20, high := 30], false, false)
    requires u == Snapshot(Some(30), high, map[bn - 1 := 10, bn := 20, high := 30], false, false)
    ensures StateAt(BlockStep(true, Increment, p, bn, [log], 0), high - 7) == Some(20)
    ensures StateAt(BlockStep(false, Increment, u, bn, [log], 0), high - 7) == Some(11)
  {
    LatestKeyNone(p.history.Keys, bn);
    assert IsLatest(u.history.Keys, bn, bn - 1);
    assert BlockResult(Increment, 10, [log]) == Some(11);
    assert IsLatest(p.history.Keys, high - 6, bn);
    assert IsLatest(u.history[bn := 11].Keys, high - 6, bn);
  }
}
