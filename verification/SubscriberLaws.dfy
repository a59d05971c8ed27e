/** What the steps of a subscriber do to what it answers: a state is found when there are logs, and no
    step loses an entry it need not. */
module SubscriberLaws {
  import opened Wrappers
  import opened Steps
  import opened BoundedHistory
  import opened ChainAgreement

  // ----- a missing state -----

  /** Logs for a subscriber without a state set the state generated at their block, and nothing is
      played on it. */
  lemma MissingStateRegenerated<S, D>(prune: bool, process: (S, Log<D>) -> Option<S>, s: Snapshot<S>, bn: nat,
                                      logs: seq<Log<D>>, regen: S)
    requires WellFormed(s) && s.state.None? && bn > 0
    ensures BlockStep(prune, process, s, bn, logs, regen) ==
            Snapshot(Some(regen), bn, map[bn := regen], false, s.inactive)
  {
    assert s.history[bn := regen] == map[bn := regen];
    assert Prune(map[bn := regen], bn - MAX_BLOCKS_HISTORY) == map[bn := regen];
    LatestKeyNone({bn}, bn);
    assert map[bn := regen].Keys == {bn};
  }

  /** After the logs of a block there is a state, unless there was none and the block is zero. */
  lemma BlockFindsState<S, D>(prune: bool, process: (S, Log<D>) -> Option<S>, s: Snapshot<S>, bn: nat,
                              logs: seq<Log<D>>, regen: S)
    requires WellFormed(s) && (prune ==> Short(s))
    ensures var t := BlockStep(prune, process, s, bn, logs, regen);
            && WellFormed(t) && (prune ==> Short(t)) && t.inactive == s.inactive
            && (t.state.Some? <==> s.state.Some? || bn > 0)
  {
    BlockKeeps(prune, process, s, bn, logs, regen);
    if s.state.None? && bn > 0 {
      MissingStateRegenerated(prune, process, s, bn, logs, regen);
    } else {
      LatestKeyNone(s.history.Keys, bn);
    }
  }

  lemma {:induction false} GroupsFindState<S, D>(process: (S, Log<D>) -> Option<S>, s: Snapshot<S>, logs: seq<Log<D>>,
                                                 generate: nat -> S)
    requires WellFormed(s) && Short(s)
    ensures var t := Groups(process, s, logs, generate);
            && t.inactive == s.inactive
            && (t.state.Some? <==> s.state.Some? || exists i :: 0 <= i < |logs| && logs[i].blockNumber > 0)
    decreases |logs|
  {
    if logs != [] {
      var n, bn := GroupLength(logs), logs[0].blockNumber;
      var t := BlockStep(true, process, s, bn, logs[..n], generate(bn));
      BlockFindsState(true, process, s, bn, logs[..n], generate(bn));
      GroupsFindState(process, t, logs[n..], generate);
      if i :| 0 <= i < |logs| && logs[i].blockNumber > 0 {
        assert i < n || logs[n..][i - n] == logs[i];
      }
    }
  }

  /** An active subscriber has a state after `update` exactly when it had one or got a log of a block
      above zero, and its flag is clear; an inactive one is left alone. */
  lemma UpdateFindsState<S, D>(process: (S, Log<D>) -> Option<S>, s: Snapshot<S>, logs: seq<Log<D>>,
                               generate: nat -> S)
    requires WellFormed(s) && Short(s)
    ensures var t := Update(process, s, logs, generate);
            if s.inactive then t == s
            else !t.invalid
                 && (t.state.Some? <==> s.state.Some? || exists i :: 0 <= i < |logs| && logs[i].blockNumber > 0)
  {
    GroupsFindState(process, s, logs, generate);
  }

  /** So a new subscriber that gets its first logs has the state generated at their block. */
  lemma FirstLogsGenerate<S, D>(process: (S, Log<D>) -> Option<S>, logs: seq<Log<D>>, generate: nat -> S)
    requires logs != [] && logs[0].blockNumber > 0
    requires forall i | 0 <= i < |logs| :: logs[i].blockNumber == logs[0].blockNumber
    ensures var bn := logs[0].blockNumber;
            Update(process, Initial(), logs, generate) ==
            Snapshot(Some(generate(bn)), bn, map[bn := generate(bn)], false, false)
  {
    var bn := logs[0].blockNumber;
    GroupLengthIs(logs, |logs|);
    assert logs[..|logs|] == logs && logs[|logs|..] == [];
    MissingStateRegenerated(true, process, Initial(), bn, logs, generate(bn));
    var t := BlockStep(true, process, Initial(), bn, logs, generate(bn));
    assert Groups(process, t, logs[|logs|..], generate) == t;
  }

  /** Delivering the logs of a block leaves a state. */
  lemma DeliveredHasState<S, D>(pool: Pool<S, D>, w: World<S, D>)
    requires Tracks(pool, w) && w.chain(w.done + 1) != []
    ensures var sub := Happen(pool, w, Deliver).sub;
            && sub.state.Some?
            && (w.sub.state.None? ==> sub.block == w.done + 1 && sub.state == Some(pool.At(w.chain, w.done + 1)))
  {
    var bn := w.done + 1;
    if w.sub.state.None? {
      MissingStateRegenerated(true, pool.process, w.sub, bn, w.chain(bn), pool.At(w.chain, bn));
    } else {
      LatestKeyNone(w.sub.history.Keys, bn);
    }
  }

  /** The logs of a block answer null exactly when none of them changes the state they are played on. */
  lemma {:induction false} NullWhenNothingReacts<S, D>(process: (S, Log<D>) -> Option<S>, s: S, logs: seq<Log<D>>)
    ensures BlockResult(process, s, logs).None? <==> forall i | 0 <= i < |logs| :: process(s, logs[i]).None?
  {
    if logs != [] {
      NullWhenNothingReacts(process, s, logs[..|logs| - 1]);
    }
  }

  /** Such logs leave a subscriber with a state as it is, and so do logs older than every entry. */
  lemma QuietLogsIgnored<S, D>(prune: bool, process: (S, Log<D>) -> Option<S>, s: Snapshot<S>, bn: nat,
                               logs: seq<Log<D>>, regen: S)
    requires s.state.Some?
    requires forall k, i | k in s.history && k < bn && 0 <= i < |logs| :: process(s.history[k], logs[i]).None?
    ensures BlockStep(prune, process, s, bn, logs, regen) == s
  {
    LatestKeyNone(s.history.Keys, bn);
    if LatestKey(s.history.Keys, bn).Some? {
      NullWhenNothingReacts(process, s.history[LatestKey(s.history.Keys, bn).value], logs);
    }
  }

  // ----- whole calls of `update` -----

  ghost predicate SameBut<S>(a: Snapshot<S>, b: Snapshot<S>) {
    a.(invalid := false) == b.(invalid := false)
  }

  lemma SetIgnoresFlag<S>(a: Snapshot<S>, b: Snapshot<S>, state: S, bn: nat)
    requires SameBut(a, b)
    ensures SameBut(SetState(true, a, state, bn), SetState(true, b, state, bn))
  {
    assert a.history == b.history && a.state == b.state && a.block == b.block && a.inactive == b.inactive;
  }

  /** The flag does not matter to the steps of an update, only to what it is afterwards. */
  lemma BlockIgnoresFlag<S, D>(process: (S, Log<D>) -> Option<S>, a: Snapshot<S>, b: Snapshot<S>, bn: nat,
                               logs: seq<Log<D>>, regen: S)
    requires SameBut(a, b)
    ensures SameBut(BlockStep(true, process, a, bn, logs, regen), BlockStep(true, process, b, bn, logs, regen))
  {
    assert a.history == b.history && a.state == b.state && a.block == b.block;
    SetIgnoresFlag(a, b, regen, bn);
    var a1 := if a.state.None? then SetState(true, a, regen, bn) else a;
    var b1 := if b.state.None? then SetState(true, b, regen, bn) else b;
    assert SameBut(a1, b1) && a1.history == b1.history;
    match LatestKey(a1.history.Keys, bn) {
      case None =>
      case Some(k) =>
        LatestKeyNone(a1.history.Keys, bn);
        match BlockResult(process, a1.history[k], logs) {
          case None =>
          case Some(next) => SetIgnoresFlag(a1, b1, next, bn);
        }
    }
  }

  lemma {:induction false} GroupsIgnoreFlag<S, D>(process: (S, Log<D>) -> Option<S>, a: Snapshot<S>, b: Snapshot<S>,
                                                  logs: seq<Log<D>>, generate: nat -> S)
    requires SameBut(a, b)
    ensures SameBut(Groups(process, a, logs, generate), Groups(process, b, logs, generate))
    decreases |logs|
  {
    if logs != [] {
      var n, bn := GroupLength(logs), logs[0].blockNumber;
      BlockIgnoresFlag(process, a, b, bn, logs[..n], generate(bn));
      GroupsIgnoreFlag(process, BlockStep(true, process, a, bn, logs[..n], generate(bn)),
                       BlockStep(true, process, b, bn, logs[..n], generate(bn)), logs[n..], generate);
    }
  }

  /** The logs of one block are handled together. */
  lemma UpdateOfOneBlock<S, D>(process: (S, Log<D>) -> Option<S>, s: Snapshot<S>, logs: seq<Log<D>>, bn: nat,
                               generate: nat -> S)
    requires !s.inactive && logs != [] && forall i | 0 <= i < |logs| :: logs[i].blockNumber == bn
    ensures Update(process, s, logs, generate) ==
            BlockStep(true, process, s, bn, logs, generate(bn)).(invalid := false)
    ensures Update(process, s, [], generate) == s.(invalid := false)
  {
    GroupLengthIs(logs, |logs|);
    assert logs[..|logs|] == logs && logs[|logs|..] == [];
    var t := BlockStep(true, process, s, bn, logs, generate(bn));
    assert Groups(process, t, logs[|logs|..], generate) == t;
  }

  lemma {:induction false} GroupsInParts<S, D>(process: (S, Log<D>) -> Option<S>, s: Snapshot<S>, first: seq<Log<D>>,
                                               second: seq<Log<D>>, generate: nat -> S)
    requires first != [] && second != [] ==> first[|first| - 1].blockNumber != second[0].blockNumber
    ensures Groups(process, s, first + second, generate) ==
            Groups(process, Groups(process, s, first, generate), second, generate)
    decreases |first|
  {
    if first == [] {
      assert first + second == second;
    } else {
      var all, n, bn := first + second, GroupLength(first), first[0].blockNumber;
      GroupLengthIs(all, n);
      assert all[..n] == first[..n] && all[n..] == first[n..] + second;
      GroupsInParts(process, BlockStep(true, process, s, bn, first[..n], generate(bn)), first[n..], second, generate);
    }
  }

  /** Logs may come in one call or in two, as long as no block is cut in two. */
  lemma UpdateInParts<S, D>(process: (S, Log<D>) -> Option<S>, s: Snapshot<S>, first: seq<Log<D>>,
                            second: seq<Log<D>>, generate: nat -> S)
    requires WellFormed(s) && Short(s)
    requires first != [] && second != [] ==> first[|first| - 1].blockNumber != second[0].blockNumber
    ensures Update(process, s, first + second, generate) ==
            Update(process, Update(process, s, first, generate), second, generate)
  {
    GroupsInParts(process, s, first, second, generate);
    var t := Groups(process, s, first, generate);
    GroupsFindState(process, s, first, generate);
    GroupsIgnoreFlag(process, t, t.(invalid := false), second, generate);
  }

  // ----- what the steps keep -----

  /** A state at or past the current block becomes current, and is served; an older one is only
      recorded. */
  lemma SetIsCurrent<S>(prune: bool, s: Snapshot<S>, state: S, bn: nat)
    requires bn > 0
    ensures var t := SetState(prune, s, state, bn);
            if s.state.None? || s.block <= bn then t.state == Some(state) && t.block == bn && !t.invalid
            else t.state == s.state && t.block == s.block && t.invalid == s.invalid
  {
  }

  /** Recording a state loses no entry that is younger than the bound, and none without a later one at
      or below it. */
  lemma SetKeepsEntries<S>(s: Snapshot<S>, state: S, bn: nat, k: nat)
    requires bn > 0 && k in s.history && k != bn
    ensures var t := SetState(true, s, state, bn);
            && (t.block < k + 7 ==> k in t.history && t.history[k] == s.history[k])
            && (k !in t.history ==> exists j :: j in t.history && k < j && j + 7 <= t.block)
  {
    var h := s.history[bn := state];
    var m := SetState(true, s, state, bn).block - MAX_BLOCKS_HISTORY;
    if Superseded(h.Keys, k, m) {
      LatestKeyNone(h.Keys, m + 1);
      var j := LatestKey(h.Keys, m + 1).value;
      assert IsLatest(h.Keys, m + 1, j);
      assert !Superseded(h.Keys, j, m) && j in Prune(h, m) && k < j;
    }
  }

  /** A rollback keeps every entry up to the block, the current one too unless the state is invalid;
      an invalid state falls back to the latest one kept, or to none if none is. */
  lemma RollbackKeepsEntries<S>(s: Snapshot<S>, bn: nat)
    requires WellFormed(s)
    ensures var t := Rollback(s, bn);
            && (forall k | k in s.history && k <= bn :: k in t.history && t.history[k] == s.history[k])
            && (forall k | k in t.history :: k in s.history && (k <= bn || (!s.invalid && k == s.block)))
            && t.invalid == s.invalid && t.inactive == s.inactive
            && (if s.invalid then t.state.None? <==> forall k | k in s.history :: bn < k
                else t.state == s.state && t.block == s.block)
  {
    LatestKeyNone(s.history.Keys, bn + 1);
  }

  /** A restart keeps every entry from the block on, and the state with its flag unless it is older. */
  lemma RestartKeepsEntries<S>(s: Snapshot<S>, bn: nat)
    requires WellFormed(s)
    ensures var t := Restart(s, bn);
            && (forall k | k in s.history && bn <= k :: k in t.history && t.history[k] == s.history[k])
            && (forall k | k in t.history :: k in s.history && bn <= k)
            && t.invalid == s.invalid && t.inactive == s.inactive
            && (if s.state.Some? && s.block < bn then t.state.None? else t.state == s.state && t.block == s.block)
  {
  }

  /** Whatever happens, an invalidated state is not served again before an update ends, or a state at or
      past its block is set. */
  lemma InvalidUntilNewer<S, D>(prune: bool, process: (S, Log<D>) -> Option<S>, s: Snapshot<S>, op: Op<S, D>)
    requires WellFormed(s) && s.invalid && s.state.Some?
    ensures !Step(prune, process, s, op).invalid ==>
              || op.EndUpdate?
              || (op.Set? && s.block <= op.bn) || (op.Block? && s.block <= op.bn)
    ensures Step(prune, process, s.(invalid := false), Op<S, D>.Invalidate).invalid
  {
    LatestKeyNone(s.history.Keys, if op.RollbackTo? then op.bn + 1 else if op.Block? then op.bn else 0);
  }
}
