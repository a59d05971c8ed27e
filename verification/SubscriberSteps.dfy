/** The steps of an event-sourced pool state, as functions on snapshots of its fields. */
module Steps {
  import opened Wrappers

  const MAX_BLOCKS_HISTORY: nat := 7

  /** A log of one block. `data` stands for everything `processLog` may look at besides the
      position, the header of the block included. */
  datatype Log<+D> = Log(blockNumber: nat, logIndex: nat, address: string, data: D)

  /** The fields of a subscriber, taken together at one moment. */
  datatype Snapshot<+S> = Snapshot(
    state: Option<S>,
    block: nat,
    history: map<nat, S>,
    invalid: bool,
    inactive: bool)

  function Initial<S>(): Snapshot<S> {
    Snapshot(None, 0, map[], false, false)
  }

  // ----- keys of the history -----

  /** `k` is the largest key strictly below `b`. */
  ghost predicate IsLatest(keys: set<nat>, b: nat, k: nat) {
    k in keys && k < b && forall j | j in keys && j < b :: j <= k
  }

  ghost function LatestKey(keys: set<nat>, b: nat): Option<nat> {
    if k :| IsLatest(keys, b, k) then Some(k) else None
  }

  lemma {:induction false} LatestExists(keys: set<nat>, b: nat, j: nat)
    requires j in keys && j < b
    ensures exists k :: IsLatest(keys, b, k)
    decreases b - j
  {
    if i :| i in keys && j < i < b {
      LatestExists(keys, b, i);
    } else {
      assert IsLatest(keys, b, j);
    }
  }

  lemma LatestKeyIs(keys: set<nat>, b: nat, k: nat)
    requires IsLatest(keys, b, k)
    ensures LatestKey(keys, b) == Some(k)
  {
  }

  lemma LatestKeyNone(keys: set<nat>, b: nat)
    ensures LatestKey(keys, b).None? <==> forall j | j in keys :: b <= j
    ensures LatestKey(keys, b).Some? ==> IsLatest(keys, b, LatestKey(keys, b).value)
  {
    if j :| j in keys && j < b {
      LatestExists(keys, b, j);
    }
  }

  /** A later key at or below `m` makes `k` unnecessary for every lookup from `m` on. */
  ghost predicate Superseded(keys: set<nat>, k: nat, m: int) {
    exists j :: j in keys && k < j <= m
  }

  ghost function Prune<S>(history: map<nat, S>, m: int): map<nat, S> {
    map k | k in history && !Superseded(history.Keys, k, m) :: history[k]
  }

  /** The entries up to `b`, and the one at `current`. */
  function KeepUpTo<S>(history: map<nat, S>, b: nat, current: nat): map<nat, S> {
    map k | k in history && (k <= b || k == current) :: history[k]
  }

  function KeepFrom<S>(history: map<nat, S>, b: nat): map<nat, S> {
    map k | k in history && b <= k :: history[k]
  }

  // ----- the steps -----

  /** `setState`; the twin that never forgets is the same step with `prune` false. */
  ghost function SetState<S>(prune: bool, s: Snapshot<S>, state: S, bn: nat): Snapshot<S> {
    if bn == 0 then s
    else
      var s1 := s.(history := s.history[bn := state]);
      var s2 := if s.state.None? || s.block <= bn
                then s1.(state := Some(state), block := bn, invalid := false) else s1;
      if prune then s2.(history := Prune(s2.history, s2.block - MAX_BLOCKS_HISTORY)) else s2
  }

  ghost function Rollback<S>(s: Snapshot<S>, bn: nat): Snapshot<S> {
    if s.invalid then
      var h := KeepUpTo(s.history, bn, bn);
      match LatestKey(s.history.Keys, bn + 1)
      case Some(k) =>
        LatestKeyNone(s.history.Keys, bn + 1);
        s.(state := Some(s.history[k]), block := k, history := h)
      case None => s.(state := None, block := bn, history := h)
    else
      s.(history := KeepUpTo(s.history, bn, s.block))
  }

  ghost function Restart<S>(s: Snapshot<S>, bn: nat): Snapshot<S> {
    var s1 := s.(history := KeepFrom(s.history, bn));
    if s.state.Some? && s.block < bn then s1.(state := None, block := bn) else s1
  }

  /** `processBlockLogs`: the state after the logs, or none if no log changed it. */
  function BlockResult<S, D>(process: (S, Log<D>) -> Option<S>, s: S, logs: seq<Log<D>>): Option<S> {
    if logs == [] then None
    else
      var prev := BlockResult(process, s, logs[..|logs| - 1]);
      match process(prev.GetOr(s), logs[|logs| - 1])
      case Some(next) => Some(next)
      case None => prev
  }

  /** The handling of all logs of one block inside `update`. */
  ghost function BlockStep<S, D>(prune: bool, process: (S, Log<D>) -> Option<S>, s: Snapshot<S>,
                                 bn: nat, logs: seq<Log<D>>, regen: S): Snapshot<S> {
    var s1 := if s.state.None? then SetState(prune, s, regen, bn) else s;
    match LatestKey(s1.history.Keys, bn)
    case None => s1
    case Some(k) =>
      LatestKeyNone(s1.history.Keys, bn);
      match BlockResult(process, s1.history[k], logs)
      case None => s1
      case Some(next) => SetState(prune, s1, next, bn)
  }

  /** How many leading logs share the block of the first one. */
  function GroupLength<D>(logs: seq<Log<D>>): (n: nat)
    requires logs != []
    ensures 1 <= n <= |logs|
    ensures forall i | 0 <= i < n :: logs[i].blockNumber == logs[0].blockNumber
    ensures n < |logs| ==> logs[n].blockNumber != logs[0].blockNumber
  {
    if |logs| > 1 && logs[1].blockNumber == logs[0].blockNumber then 1 + GroupLength(logs[1..]) else 1
  }

  lemma {:induction false} GroupLengthIs<D>(logs: seq<Log<D>>, n: nat)
    requires 1 <= n <= |logs|
    requires forall i | 0 <= i < n :: logs[i].blockNumber == logs[0].blockNumber
    requires n < |logs| ==> logs[n].blockNumber != logs[0].blockNumber
    ensures GroupLength(logs) == n
  {
    if n > 1 {
      assert logs[1].blockNumber == logs[0].blockNumber;
      GroupLengthIs(logs[1..], n - 1);
    }
  }

  ghost function Groups<S, D>(process: (S, Log<D>) -> Option<S>, s: Snapshot<S>, logs: seq<Log<D>>,
                              generate: nat -> S): Snapshot<S>
    decreases |logs|
  {
    if logs == [] then s
    else
      var n := GroupLength(logs);
      var bn := logs[0].blockNumber;
      Groups(process, BlockStep(true, process, s, bn, logs[..n], generate(bn)), logs[n..], generate)
  }

  ghost function Update<S, D>(process: (S, Log<D>) -> Option<S>, s: Snapshot<S>, logs: seq<Log<D>>,
                              generate: nat -> S): Snapshot<S> {
    if s.inactive then s else Groups(process, s, logs, generate).(invalid := false)
  }
}
