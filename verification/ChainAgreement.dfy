/** The stored states are the states of the chain, through any number of reorganisations. */
module ChainAgreement {
  import opened Wrappers
  import opened Steps
  import opened BoundedHistory

  /** The logs of each block that concern the pool. */
  type Chain<!D> = nat -> seq<Log<D>>

  datatype Pool<!S, !D> = Pool(genesis: S, process: (S, Log<D>) -> Option<S>) {

    /** Playing logs one by one; a log without effect leaves the state as it is. */
    function Fold(s: S, logs: seq<Log<D>>): S {
      if logs == [] then s else Fold(process(s, logs[0]).GetOr(s), logs[1..])
    }

    function At(chain: Chain<D>, b: nat): S {
      if b == 0 then genesis else Fold(At(chain, b - 1), chain(b))
    }

    function States(chain: Chain<D>): nat -> S {
      (b: nat) => At(chain, b)
    }
  }

  lemma {:induction false} FoldAppend<S, D>(pool: Pool<S, D>, s: S, logs: seq<Log<D>>, last: Log<D>)
    ensures pool.Fold(s, logs + [last]) ==
            var t := pool.Fold(s, logs); pool.process(t, last).GetOr(t)
  {
    if logs == [] {
      assert (logs + [last])[1..] == [];
    } else {
      assert (logs + [last])[1..] == logs[1..] + [last];
      FoldAppend(pool, pool.process(s, logs[0]).GetOr(s), logs[1..], last);
    }
  }

  /** `processBlockLogs` computes the fold, and answers null only when nothing changed. */
  lemma {:induction false} BlockResultIsFold<S, D>(pool: Pool<S, D>, s: S, logs: seq<Log<D>>)
    ensures BlockResult(pool.process, s, logs).GetOr(s) == pool.Fold(s, logs)
  {
    if logs != [] {
      var init := logs[..|logs| - 1];
      BlockResultIsFold(pool, s, init);
      FoldAppend(pool, s, init, logs[|logs| - 1]);
      assert init + [logs[|logs| - 1]] == logs;
    }
  }

  // ----- agreement of a history with a chain -----

  /** `k` is the entry in force at block `b`: the latest one at or before it. */
  ghost predicate InForce(keys: set<nat>, k: nat, b: nat) {
    IsLatest(keys, b + 1, k)
  }

  ghost predicate Within(limit: Option<nat>, b: nat) {
    limit.Some? ==> b <= limit.value
  }

  /** Every entry is the state `at` its own block, and of every delivered block at which it is
      in force. Only blocks within `limit` count. */
  ghost predicate Agrees<S>(h: map<nat, S>, at: nat -> S, limit: Option<nat>, done: nat) {
    && (forall k | k in h && Within(limit, k) :: h[k] == at(k))
    && (forall k: nat, b: nat | InForce(h.Keys, k, b) && b <= done && Within(limit, b) :: h[k] == at(b))
  }

  /** Up to `done`, no block after `bn` and before the next entry changes the state. */
  ghost predicate Quiet<S>(keys: set<nat>, at: nat -> S, bn: nat, done: nat) {
    forall b | bn < b <= done && (forall j | j in keys && bn < j :: b < j) :: Still(at, b)
  }

  /** Block `b` leaves the state as it was. */
  ghost predicate Still<S>(at: nat -> S, b: nat) {
    b > 0 ==> at(b) == at(b - 1)
  }

  lemma {:induction false} QuietTo<S>(keys: set<nat>, at: nat -> S, bn: nat, done: nat, b: nat)
    requires Quiet(keys, at, bn, done) && InForce(keys + {bn}, bn, b) && b <= done
    ensures at(b) == at(bn)
    decreases b
  {
    if bn < b {
      assert forall j | j in keys && bn < j :: j in keys + {bn} && b < j;
      assert InForce(keys + {bn}, bn, b - 1);
      assert Still(at, b);
      QuietTo(keys, at, bn, done, b - 1);
    }
  }

  /** If the stretch is not quiet, the state changes somewhere in it. */
  lemma NotQuiet<S>(keys: set<nat>, at: nat -> S, bn: nat, done: nat) returns (b: nat)
    requires !Quiet(keys, at, bn, done)
    ensures InForce(keys + {bn}, bn, b) && b <= done && at(b) != at(bn)
  {
    var c: nat :| bn < c <= done && (forall j | j in keys && bn < j :: c < j) && !Still(at, c);
    var all := keys + {bn};
    assert forall j | j in all && bn < j :: j in keys && c < j;
    assert bn in all && InForce(all, bn, c) && InForce(all, bn, c - 1);
    b := if at(c) != at(bn) then c else c - 1;
  }

  /** A late entry agrees with the chain exactly when the stretch it covers is quiet. */
  lemma InsertAgrees<S>(h: map<nat, S>, at: nat -> S, limit: Option<nat>, done: nat, bn: nat)
    requires Agrees(h, at, limit, done) && (limit.Some? ==> done <= limit.value)
    ensures Agrees(h[bn := at(bn)], at, limit, done) <==> Quiet(h.Keys, at, bn, done)
  {
    var g := h[bn := at(bn)];
    assert g.Keys == h.Keys + {bn};
    if Quiet(h.Keys, at, bn, done) {
      forall k: nat, b: nat | InForce(g.Keys, k, b) && b <= done && Within(limit, b)
        ensures g[k] == at(b)
      {
        if k == bn {
          QuietTo(h.Keys, at, bn, done, b);
        } else {
          assert InForce(h.Keys, k, b);
        }
      }
    } else {
      var b := NotQuiet(h.Keys, at, bn, done);
      assert InForce(g.Keys, bn, b) && Within(limit, b);
    }
  }

  /** What is in force after pruning was in force before. */
  lemma InForceUnpruned<S>(h: map<nat, S>, m: int, k: nat, b: nat)
    requires InForce(Prune(h, m).Keys, k, b)
    ensures InForce(h.Keys, k, b)
  {
    assert forall j | j in h.Keys && k < j :: m < j && j in Prune(h, m).Keys;
  }

  lemma PruneAgrees<S>(h: map<nat, S>, at: nat -> S, limit: Option<nat>, done: nat, m: int)
    requires Agrees(h, at, limit, done)
    ensures Agrees(Prune(h, m), at, limit, done)
  {
    forall k: nat, b: nat | InForce(Prune(h, m).Keys, k, b) && b <= done && Within(limit, b)
      ensures Prune(h, m)[k] == at(b)
    {
      InForceUnpruned(h, m, k, b);
    }
  }

  /** A late entry that is pruned at once does no harm either. */
  lemma InsertPrunedAgrees<S>(h: map<nat, S>, at: nat -> S, limit: Option<nat>, done: nat, bn: nat, m: int)
    requires Agrees(h, at, limit, done) && (limit.Some? ==> done <= limit.value)
    ensures Agrees(Prune(h[bn := at(bn)], m), at, limit, done) <==>
            Superseded(h.Keys + {bn}, bn, m) || Quiet(h.Keys, at, bn, done)
  {
    var g := h[bn := at(bn)];
    assert g.Keys == h.Keys + {bn};
    if Quiet(h.Keys, at, bn, done) {
      InsertAgrees(h, at, limit, done, bn);
      PruneAgrees(g, at, limit, done, m);
    } else if Superseded(g.Keys, bn, m) {
      forall k: nat, b: nat | InForce(Prune(g, m).Keys, k, b) && b <= done && Within(limit, b)
        ensures Prune(g, m)[k] == at(b)
      {
        InForceUnpruned(g, m, k, b);
        assert k != bn;
        assert InForce(h.Keys, k, b);
      }
    } else {
      var b := NotQuiet(h.Keys, at, bn, done);
      assert bn in Prune(g, m).Keys && InForce(Prune(g, m).Keys, bn, b) && Within(limit, b);
    }
  }

  lemma KeepUpToAgrees<S>(h: map<nat, S>, at: nat -> S, done: nat, r: nat, current: nat)
    requires Agrees(h, at, Some(r), done) && done <= r
    requires r < current && current in h ==> h[current] == at(current)
    ensures Agrees(KeepUpTo(h, r, current), at, None, done)
  {
    var g := KeepUpTo(h, r, current);
    assert forall j | j in h && j <= r :: j in g.Keys;
    forall k: nat, b: nat | InForce(g.Keys, k, b) && b <= done
      ensures g[k] == at(b)
    {
      assert InForce(h.Keys, k, b);
    }
  }

  lemma KeepFromAgrees<S>(h: map<nat, S>, at: nat -> S, done: nat, bn: nat)
    requires Agrees(h, at, None, done)
    ensures Agrees(KeepFrom(h, bn), at, None, if done < bn then bn else done)
  {
    var g := KeepFrom(h, bn);
    assert forall j | j in h && bn <= j :: j in g.Keys;
    forall k: nat, b: nat | InForce(g.Keys, k, b) && b <= if done < bn then bn else done
      ensures g[k] == at(b)
    {
      if b <= done {
        assert InForce(h.Keys, k, b);
      }
    }
  }

  ghost predicate Fork<D>(chain: Chain<D>, chain': Chain<D>, r: nat) {
    forall b | 0 < b <= r :: chain(b) == chain'(b)
  }

  lemma {:induction false} ForkAt<S, D>(pool: Pool<S, D>, chain: Chain<D>, chain': Chain<D>, r: nat, b: nat)
    requires Fork(chain, chain', r) && b <= r
    ensures pool.At(chain, b) == pool.At(chain', b)
  {
    if b > 0 {
      ForkAt(pool, chain, chain', r, b - 1);
    }
  }

  function Min(a: nat, b: nat): nat {
    if a < b then a else b
  }

  lemma ForkAgrees<S, D>(pool: Pool<S, D>, h: map<nat, S>, chain: Chain<D>, chain': Chain<D>, done: nat, r: nat)
    requires Agrees(h, pool.States(chain), None, done) && Fork(chain, chain', r)
    ensures Agrees(h, pool.States(chain'), Some(r), Min(done, r))
  {
    forall k: nat | k <= r
      ensures pool.States(chain)(k) == pool.States(chain')(k)
    {
      ForkAt(pool, chain, chain', r, k);
    }
  }

  // ----- runs -----

  /** The subscriber, the chain as it stands, and the last block whose logs were delivered. */
  datatype World<!S, !D> = World(sub: Snapshot<S>, chain: Chain<D>, done: nat)

  datatype Event<!D> =
    | Deliver                        // the logs of the next block, if it has any
    | FinishUpdate
    | SetFresh(bn: nat)              // a state obtained without logs, at an exact block
    | MarkInvalid
    | SkipTo(bn: nat)                // `restart`
    | Reorg(r: nat, chain: Chain<D>, refreshed: Option<nat>)
        // `invalidate`, perhaps a state of the new chain, then `rollback` to the common block

  ghost predicate Tracks<S, D>(pool: Pool<S, D>, w: World<S, D>) {
    WellFormed(w.sub) && Agrees(w.sub.history, pool.States(w.chain), None, w.done)
  }

  /** What the block of the state is after `setState` at block `bn`. */
  function BlockAfter<S>(s: Snapshot<S>, bn: nat): nat {
    if s.state.None? || s.block <= bn then bn else s.block
  }

  /** A state set at `bn` is ignored, or pruned at once, or no block delivered after it and before
      the next entry changes the state. */
  ghost predicate Settles<S>(s: Snapshot<S>, at: nat -> S, done: nat, bn: nat) {
    || bn == 0
    || Superseded(s.history.Keys + {bn}, bn, BlockAfter(s, bn) - MAX_BLOCKS_HISTORY)
    || Quiet(s.history.Keys, at, bn, done)
  }

  ghost predicate Possible<S, D>(pool: Pool<S, D>, w: World<S, D>, e: Event<D>) {
    match e
    case SetFresh(bn) => Settles(w.sub, pool.States(w.chain), w.done, bn)
    case Reorg(r, chain', refreshed) =>
      && Fork(w.chain, chain', r)
      && (refreshed.Some? ==> Settles(w.sub, pool.States(chain'), Min(w.done, r), refreshed.value))
    case _ => true
  }

  /** `invalidate`, then perhaps `setState`. */
  ghost function Prepared<S>(s: Snapshot<S>, at: nat -> S, refreshed: Option<nat>): Snapshot<S> {
    var marked := s.(invalid := true);
    match refreshed
    case Some(bn) => SetState(true, marked, at(bn), bn)
    case None => marked
  }

  ghost function Happen<S, D>(pool: Pool<S, D>, w: World<S, D>, e: Event<D>): World<S, D> {
    match e
    case Deliver =>
      var bn := w.done + 1;
      var sub := if w.chain(bn) == [] then w.sub
                 else BlockStep(true, pool.process, w.sub, bn, w.chain(bn), pool.At(w.chain, bn));
      w.(sub := sub, done := bn)
    case FinishUpdate => w.(sub := w.sub.(invalid := false))
    case SetFresh(bn) => w.(sub := SetState(true, w.sub, pool.At(w.chain, bn), bn))
    case MarkInvalid => w.(sub := w.sub.(invalid := true))
    case SkipTo(bn) => w.(sub := Restart(w.sub, bn), done := if w.done < bn then bn else w.done)
    case Reorg(r, chain', refreshed) =>
      World(Rollback(Prepared(w.sub, pool.States(chain'), refreshed), r), chain', Min(w.done, r))
  }

  lemma SetStateAgrees<S>(s: Snapshot<S>, at: nat -> S, limit: Option<nat>, done: nat, bn: nat)
    requires WellFormed(s) && Agrees(s.history, at, limit, done) && (limit.Some? ==> done <= limit.value)
    ensures var t := SetState(true, s, at(bn), bn);
            && WellFormed(t) && (Agrees(t.history, at, limit, done) <==> Settles(s, at, done, bn))
            && (s.invalid && !t.invalid ==> t.block == bn && t.state == Some(at(bn)))
  {
    if bn > 0 {
      var m := BlockAfter(s, bn) - MAX_BLOCKS_HISTORY;
      SetStateKeeps(false, s, at(bn), bn);
      PruneKeepsWellFormed(SetState(false, s, at(bn), bn));
      assert SetState(true, s, at(bn), bn).history == Prune(s.history[bn := at(bn)], m);
      InsertPrunedAgrees(s.history, at, limit, done, bn, m);
    }
  }

  lemma PruneKeepsWellFormed<S>(s: Snapshot<S>)
    requires WellFormed(s) && s.state.Some?
    ensures WellFormed(s.(history := Prune(s.history, s.block - MAX_BLOCKS_HISTORY)))
  {
    assert s.block in s.history.Keys;
  }

  lemma ExtendAgrees<S>(h: map<nat, S>, at: nat -> S, done: nat)
    requires Agrees(h, at, None, done)
    requires forall k | InForce(h.Keys, k, done + 1) :: h[k] == at(done + 1)
    ensures Agrees(h, at, None, done + 1)
  {
    forall k: nat, b: nat | InForce(h.Keys, k, b) && b <= done + 1
      ensures h[k] == at(b)
    {
      assert b <= done || b == done + 1;
    }
  }

  /** The block after `done` changes nothing: what was in force stays right. */
  lemma QuietBlock<S>(h: map<nat, S>, at: nat -> S, done: nat)
    requires Agrees(h, at, None, done)
    requires (exists k :: k in h && k <= done) ==> at(done + 1) == at(done)
    ensures Agrees(h, at, None, done + 1)
  {
    forall k | InForce(h.Keys, k, done + 1)
      ensures h[k] == at(done + 1)
    {
      if k != done + 1 {
        assert InForce(h.Keys, k, done);
      }
    }
    ExtendAgrees(h, at, done);
  }

  lemma NewestInForce<S>(s: Snapshot<S>, state: S, bn: nat)
    requires bn > 0
    ensures var h := SetState(true, s, state, bn).history;
            forall k | InForce(h.Keys, k, bn) :: h[k] == state
  {
    var g := SetState(false, s, state, bn);
    var m := g.block - MAX_BLOCKS_HISTORY;
    forall k | InForce(Prune(g.history, m).Keys, k, bn) && k != bn
      ensures bn in Prune(g.history, m).Keys
    {
      assert bn in g.history.Keys && !Superseded(g.history.Keys, k, m);
      assert m < bn;
    }
  }

  lemma DeliverTracks<S, D>(pool: Pool<S, D>, w: World<S, D>)
    requires Tracks(pool, w)
    ensures Tracks(pool, Happen(pool, w, Deliver))
  {
    var at := pool.States(w.chain);
    var sub, changed := DeliveredState(pool, w, at, w.done + 1);
    DeliveredAgrees(w.sub, at, w.done, sub, changed);
    IsTracked(pool, sub, w.chain, w.done + 1);
  }

  lemma DeliveredAgrees<S>(s: Snapshot<S>, at: nat -> S, done: nat, sub: Snapshot<S>, changed: bool)
    requires WellFormed(s) && Agrees(s.history, at, None, done)
    requires sub == if changed then SetState(true, s, at(done + 1), done + 1) else s
    requires !changed && (exists k :: k in s.history && k <= done) ==> at(done + 1) == at(done)
    ensures WellFormed(sub) && Agrees(sub.history, at, None, done + 1)
  {
    if changed {
      SetNextAgrees(s, at, done);
    } else {
      QuietBlock(s.history, at, done);
    }
  }

  lemma IsTracked<S, D>(pool: Pool<S, D>, sub: Snapshot<S>, chain: Chain<D>, done: nat)
    requires WellFormed(sub) && Agrees(sub.history, pool.States(chain), None, done)
    ensures Tracks(pool, World(sub, chain, done))
  {
  }

  /** Delivering a block sets its state, or changes nothing because no earlier state is known or the
      block has no effect on it. */
  lemma DeliveredState<S, D>(pool: Pool<S, D>, w: World<S, D>, at: nat -> S, bn: nat)
    returns (sub: Snapshot<S>, changed: bool)
    requires Tracks(pool, w) && at == pool.States(w.chain) && bn == w.done + 1
    ensures Happen(pool, w, Deliver) == World(sub, w.chain, bn)
    ensures sub == if changed then SetState(true, w.sub, at(bn), bn) else w.sub
    ensures !changed && (exists k :: k in w.sub.history && k <= w.done) ==> at(bn) == at(w.done)
  {
    var logs := w.chain(bn);
    AtNext(pool, w.chain, w.done);
    if logs == [] {
      return w.sub, false;
    }
    sub, changed := PlayedBlock(pool, w.sub, at, w.done, bn, logs);
  }

  lemma AtNext<S, D>(pool: Pool<S, D>, chain: Chain<D>, b: nat)
    ensures pool.At(chain, b + 1) == pool.Fold(pool.At(chain, b), chain(b + 1))
    ensures chain(b + 1) == [] ==> pool.At(chain, b + 1) == pool.At(chain, b)
  {
  }

  lemma PlayedBlock<S, D>(pool: Pool<S, D>, s: Snapshot<S>, at: nat -> S, done: nat, bn: nat, logs: seq<Log<D>>)
    returns (sub: Snapshot<S>, changed: bool)
    requires WellFormed(s) && Agrees(s.history, at, None, done) && bn == done + 1
    requires at(bn) == pool.Fold(at(done), logs)
    ensures sub == BlockStep(true, pool.process, s, bn, logs, at(bn))
    ensures sub == if changed then SetState(true, s, at(bn), bn) else s
    ensures !changed && (exists k :: k in s.history && k <= done) ==> at(bn) == at(done)
  {
    var h := s.history;
    LatestKeyNone(h.Keys, bn);
    if s.state.None? {
      LatestKeyNone(SetState(true, s, at(bn), bn).history.Keys, bn);
      return SetState(true, s, at(bn), bn), true;
    }
    match LatestKey(h.Keys, bn) {
      case None =>
        return s, false;
      case Some(k) =>
        assert InForce(h.Keys, k, done);
        assert h[k] == at(done);
        BlockResultIsFold(pool, h[k], logs);
        changed := BlockResult(pool.process, h[k], logs).Some?;
        sub := if changed then SetState(true, s, at(bn), bn) else s;
    }
  }

  lemma SetNextAgrees<S>(s: Snapshot<S>, at: nat -> S, done: nat)
    requires WellFormed(s) && Agrees(s.history, at, None, done)
    ensures var t := SetState(true, s, at(done + 1), done + 1);
            WellFormed(t) && Agrees(t.history, at, None, done + 1)
  {
    SetStateAgrees(s, at, None, done, done + 1);
    NewestInForce(s, at(done + 1), done + 1);
    ExtendAgrees(SetState(true, s, at(done + 1), done + 1).history, at, done);
  }

  /** A reorganisation leaves only states of the new chain exactly when the state refreshed on the
      way, if any, settles. */
  lemma ReorgTracks<S, D>(pool: Pool<S, D>, w: World<S, D>, r: nat, chain': Chain<D>, refreshed: Option<nat>)
    requires Tracks(pool, w) && Fork(w.chain, chain', r)
    ensures Tracks(pool, Happen(pool, w, Reorg(r, chain', refreshed))) <==>
            Possible(pool, w, Reorg(r, chain', refreshed))
  {
    ForkAgrees(pool, w.sub.history, w.chain, chain', w.done, r);
    ReorgAgrees(w.sub, pool.States(chain'), Min(w.done, r), r, refreshed);
  }

  lemma ReorgAgrees<S>(s: Snapshot<S>, at: nat -> S, done: nat, r: nat, refreshed: Option<nat>)
    requires WellFormed(s) && Agrees(s.history, at, Some(r), done) && done <= r
    ensures var t := Rollback(Prepared(s, at, refreshed), r);
            && WellFormed(t)
            && (Agrees(t.history, at, None, done) <==> (refreshed.Some? ==> Settles(s, at, done, refreshed.value)))
  {
    var prepared := Prepared(s, at, refreshed);
    if refreshed.Some? {
      SetStateAgrees(s.(invalid := true), at, Some(r), done, refreshed.value);
    }
    RollbackKeeps(prepared, r);
    var current := if prepared.invalid then r else prepared.block;
    if Agrees(prepared.history, at, Some(r), done) {
      KeepUpToAgrees(prepared.history, at, done, r, current);
    } else if Agrees(KeepUpTo(prepared.history, r, current), at, None, done) {
      KeptAgrees(prepared.history, at, done, r, current);
    }
  }

  /** Keeping the entries up to `r` loses nothing that is in force by then. */
  lemma KeptAgrees<S>(h: map<nat, S>, at: nat -> S, done: nat, r: nat, current: nat)
    requires Agrees(KeepUpTo(h, r, current), at, None, done) && done <= r
    ensures Agrees(h, at, Some(r), done)
  {
    var g := KeepUpTo(h, r, current);
    forall k: nat, b: nat | InForce(h.Keys, k, b) && b <= done && Within(Some(r), b)
      ensures h[k] == at(b)
    {
      assert k in g.Keys && InForce(g.Keys, k, b);
    }
  }

  lemma RollbackKeeps<S>(s: Snapshot<S>, bn: nat)
    requires WellFormed(s)
    ensures WellFormed(Rollback(s, bn))
    ensures Rollback(s, bn).history == KeepUpTo(s.history, bn, if s.invalid then bn else s.block)
  {
    LatestKeyNone(s.history.Keys, bn + 1);
    assert LatestKey(s.history.Keys, bn + 1).None? ==> KeepUpTo(s.history, bn, bn) == map[];
  }

  /** A state obtained without logs keeps every entry right exactly when it settles. */
  lemma FreshTracks<S, D>(pool: Pool<S, D>, w: World<S, D>, bn: nat)
    requires Tracks(pool, w)
    ensures Tracks(pool, Happen(pool, w, SetFresh(bn))) <==> Possible(pool, w, SetFresh(bn))
  {
    SetStateAgrees(w.sub, pool.States(w.chain), None, w.done, bn);
  }

  lemma HappenTracks<S, D>(pool: Pool<S, D>, w: World<S, D>, e: Event<D>)
    requires Tracks(pool, w) && Possible(pool, w, e)
    ensures Tracks(pool, Happen(pool, w, e))
  {
    match e
    case Deliver => DeliverTracks(pool, w);
    case SetFresh(bn) => FreshTracks(pool, w, bn);
    case SkipTo(bn) =>
      KeepFromAgrees(w.sub.history, pool.States(w.chain), w.done, bn);
      assert w.sub.block < bn || w.sub.state.None? ==> KeepFrom(w.sub.history, bn) == map[];
    case Reorg(r, chain', refreshed) => ReorgTracks(pool, w, r, chain', refreshed);
    case _ =>
  }

  ghost function History<S, D>(pool: Pool<S, D>, chain: Chain<D>, start: nat, events: seq<Event<D>>): World<S, D> {
    if events == [] then World(Initial(), chain, start)
    else Happen(pool, History(pool, chain, start, events[..|events| - 1]), events[|events| - 1])
  }

  ghost predicate PossibleRun<S, D>(pool: Pool<S, D>, chain: Chain<D>, start: nat, events: seq<Event<D>>) {
    events != [] ==>
      var before := events[..|events| - 1];
      && PossibleRun(pool, chain, start, before)
      && Possible(pool, History(pool, chain, start, before), events[|events| - 1])
  }

  lemma {:induction false} RunTracks<S, D>(pool: Pool<S, D>, chain: Chain<D>, start: nat, events: seq<Event<D>>)
    requires PossibleRun(pool, chain, start, events)
    ensures Tracks(pool, History(pool, chain, start, events))
  {
    if events != [] {
      RunTracks(pool, chain, start, events[..|events| - 1]);
      HappenTracks(pool, History(pool, chain, start, events[..|events| - 1]), events[|events| - 1]);
    }
  }

  /** Main result: after any run of deliveries, fresh states, restarts and reorganisations, every
      entry is the fold of the logs of the chain as it now stands, and a current state that is not
      ahead of the deliveries is the state of the last block delivered. */
  lemma StatesAreChainStates<S, D>(pool: Pool<S, D>, chain: Chain<D>, start: nat, events: seq<Event<D>>)
    requires PossibleRun(pool, chain, start, events)
    ensures var w := History(pool, chain, start, events);
            && (forall k | k in w.sub.history :: w.sub.history[k] == pool.At(w.chain, k))
            && (w.sub.state.Some? ==>
                  w.sub.state.value == pool.At(w.chain, if w.sub.block <= w.done then w.done else w.sub.block))
  {
    RunTracks(pool, chain, start, events);
    var w := History(pool, chain, start, events);
    if w.sub.state.Some? && w.sub.block <= w.done {
      assert InForce(w.sub.history.Keys, w.sub.block, w.done);
    }
  }

  /** Without `invalidate` the current state is kept: the rollback is right exactly when that
      state is not beyond the common block, or happens to be the state of the new chain. */
  lemma UninvalidatedRollback<S, D>(pool: Pool<S, D>, w: World<S, D>, r: nat, chain': Chain<D>)
    requires Tracks(pool, w) && Fork(w.chain, chain', r)
    requires !w.sub.invalid && w.sub.state.Some?
    ensures Tracks(pool, World(Rollback(w.sub, r), chain', Min(w.done, r))) <==>
            w.sub.block <= r || w.sub.state.value == pool.At(chain', w.sub.block)
  {
    ForkAgrees(pool, w.sub.history, w.chain, chain', w.done, r);
    RollbackKeeps(w.sub, r);
    if w.sub.block <= r || w.sub.state.value == pool.At(chain', w.sub.block) {
      KeepUpToAgrees(w.sub.history, pool.States(chain'), Min(w.done, r), r, w.sub.block);
    } else {
      assert w.sub.block in Rollback(w.sub, r).history;
    }
  }

  // ----- the conditions cannot be dropped -----

  /** One log, at block `b`. */
  function OneLogAt(b: nat, log: Log<int>): Chain<int> {
    (k: nat) => if k == b then [log] else []
  }

  function Counter(): Pool<int, int> {
    Pool(0, Increment)
  }

  lemma {:induction false} CounterAt(b: nat, log: Log<int>, k: nat)
    requires b > 0
    ensures Counter().At(OneLogAt(b, log), k) == if k < b then 0 else 1
  {
    if k > 0 {
      CounterAt(b, log, k - 1);
      var s := Counter().At(OneLogAt(b, log), k - 1);
      assert [log][1..] == [];
      assert Counter().Fold(s, [log]) == Counter().Fold(s + 1, []) == s + 1;
    }
  }

  /** A state set behind the delivered blocks, with a log in between: it becomes the current state,
      and it is not the state of the last block delivered. */
  lemma LateStateFails(bn: nat, done: nat, log: Log<int>)
    requires 0 < bn < done
    ensures var chain := OneLogAt(done, log);
            var w := World(Initial(), chain, done);
            var after := Happen(Counter(), w, SetFresh(bn));
            && Tracks(Counter(), w) && !Possible(Counter(), w, SetFresh(bn))
            && after.sub.block <= after.done
            && after.sub.state == Some(0) && Counter().At(chain, after.done) == 1
  {
    var chain := OneLogAt(done, log);
    CounterAt(done, log, bn);
    CounterAt(done, log, done);
    CounterAt(done, log, done - 1);
    var at := Counter().States(chain);
    assert at(done) == 1 && at(done - 1) == 0;
    assert !Still(at, done);
    assert !Quiet(Initial<int>().history.Keys, at, bn, done);
  }

  /** A state of a block that the reorganisation removes, kept because `invalidate` was not called. */
  lemma UninvalidatedRollbackFails(r: nat, bn: nat, log: Log<int>)
    requires r < bn
    ensures var chain, chain' := OneLogAt(bn, log), OneLogAt(bn + 1, log);
            var w := Happen(Counter(), World(Initial(), chain, bn), SetFresh(bn));
            && Tracks(Counter(), w) && Fork(chain, chain', r) && !w.sub.invalid
            && Rollback(w.sub, r).state == Some(1) && Counter().At(chain', bn) == 0
            && !Tracks(Counter(), World(Rollback(w.sub, r), chain', Min(w.done, r)))
  {
    var chain, chain' := OneLogAt(bn, log), OneLogAt(bn + 1, log);
    CounterAt(bn, log, bn);
    CounterAt(bn + 1, log, bn);
    var w0: World<int, int> := World(Initial(), chain, bn);
    var w := Happen(Counter(), w0, SetFresh(bn));
    FreshTracks(Counter(), w0, bn);
    assert w.sub.state == Some(1) && w.sub.block == bn;
    UninvalidatedRollback(Counter(), w, r, chain');
  }
}
