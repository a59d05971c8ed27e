/** `StatefulEventSubscriber`: mutable fields whose methods perform the steps of `Steps`. */
module Subscriber {
  import opened Wrappers
  import opened Steps

  ghost predicate Ascending(ks: seq<nat>) {
    forall i, j | 0 <= i < j < |ks| :: ks[i] < ks[j]
  }

  /** `Object.keys` of an object with integer keys: all of them, in ascending order. */
  method SortedKeys<S>(m: map<nat, S>) returns (ks: seq<nat>)
    ensures Ascending(ks)
    ensures forall k :: k in ks <==> k in m
  {
    ks := [];
    var left := m.Keys;
    while left != {}
      invariant Ascending(ks)
      invariant left <= m.Keys
      invariant forall k :: k in m <==> k in ks || k in left
      invariant forall i, k | 0 <= i < |ks| && k in left :: ks[i] < k
      decreases left
    {
      var least :| least in left;
      var rest := left - {least};
      while rest != {}
        invariant rest <= left && least in left
        invariant forall k | k in left && k !in rest :: least <= k
        decreases rest
      {
        var k :| k in rest;
        rest := rest - {k};
        if k < least {
          least := k;
        }
      }
      ks := ks + [least];
      left := left - {least};
    }
  }

  function Without<S>(h: map<nat, S>, ks: seq<nat>): map<nat, S> {
    map k | k in h && k !in ks :: h[k]
  }

  function WithoutAbove<S>(h: map<nat, S>, ks: seq<nat>, b: nat, current: nat): map<nat, S> {
    map k | k in h && (k !in ks || k <= b || k == current) :: h[k]
  }

  lemma WithoutAboveNext<S>(h: map<nat, S>, ks: seq<nat>, k: nat, b: nat, current: nat)
    ensures WithoutAbove(h, ks + [k], b, current) ==
            if b < k && k != current then WithoutAbove(h, ks, b, current) - {k} else WithoutAbove(h, ks, b, current)
  {
  }

  lemma WithoutAboveAll<S>(h: map<nat, S>, ks: seq<nat>, b: nat, current: nat)
    requires forall k | k in h :: k in ks
    ensures WithoutAbove(h, ks, b, current) == KeepUpTo(h, b, current)
    ensures WithoutAbove(h, [], b, current) == h
  {
  }

  /** Dropping a prefix of the sorted keys is pruning when the last key dropped is followed by one
      still at or below `m` and no other key kept has this property. */
  lemma DroppedAreSuperseded<S>(h: map<nat, S>, keys: seq<nat>, n: nat, m: int)
    requires Ascending(keys) && forall k :: k in keys <==> k in h
    requires n <= |keys|
    requires n > 0 ==> n < |keys| && keys[n] <= m
    requires n + 1 < |keys| ==> m < keys[n + 1]
    ensures Without(h, keys[..n]) == Prune(h, m)
  {
    forall k | k in h
      ensures k in keys[..n] <==> Superseded(h.Keys, k, m)
    {
      var a :| 0 <= a < |keys| && keys[a] == k;
      if a < n {
        assert keys[n] in h.Keys && k < keys[n] <= m;
      } else {
        forall j | j in h.Keys && k < j
          ensures m < j
        {
          var c :| 0 <= c < |keys| && keys[c] == j;
        }
      }
    }
  }

  /** The logs from `index` on: first the block that ends before `end`, then the rest. */
  lemma GroupsNext<S, D>(process: (S, Log<D>) -> Option<S>, s: Snapshot<S>, logs: seq<Log<D>>, index: nat, end: nat,
                         generate: nat -> S)
    requires index < end <= |logs| && end - index == GroupLength(logs[index..])
    ensures var bn := logs[index].blockNumber;
            Groups(process, s, logs[index..], generate) ==
            Groups(process, BlockStep(true, process, s, bn, logs[index..end], generate(bn)), logs[end..], generate)
  {
    var rest, n := logs[index..], end - index;
    assert rest[0] == logs[index];
    assert rest[..n] == logs[index..end];
    assert rest[n..] == logs[end..];
  }

  /** The last of some keys that is not above `b`. */
  function LastUpTo(ks: seq<nat>, b: nat): Option<nat> {
    if ks == [] then None
    else if ks[|ks| - 1] <= b then Some(ks[|ks| - 1])
    else LastUpTo(ks[..|ks| - 1], b)
  }

  lemma {:induction false} LastUpToIs(ks: seq<nat>, b: nat)
    requires Ascending(ks)
    ensures LastUpTo(ks, b).None? ==> forall k | k in ks :: b < k
    ensures LastUpTo(ks, b).Some? ==>
              LastUpTo(ks, b).value in ks && LastUpTo(ks, b).value <= b &&
              forall k | k in ks && k <= b :: k <= LastUpTo(ks, b).value
  {
    if ks != [] && ks[|ks| - 1] > b {
      var prefix := ks[..|ks| - 1];
      LastUpToIs(prefix, b);
      assert forall k :: k in ks <==> k in prefix || k == ks[|ks| - 1];
    }
  }

  lemma LastUpToIsLatest<S>(h: map<nat, S>, keys: seq<nat>, b: nat)
    requires Ascending(keys) && forall k :: k in keys <==> k in h
    ensures LastUpTo(keys, b) == LatestKey(h.Keys, b + 1)
  {
    LastUpToIs(keys, b);
    LatestKeyNone(h.Keys, b + 1);
    if LastUpTo(keys, b).Some? {
      assert IsLatest(h.Keys, b + 1, LastUpTo(keys, b).value);
    }
  }

  lemma DroppedAreBelow<S>(h: map<nat, S>, keys: seq<nat>, n: nat, b: nat)
    requires Ascending(keys) && (forall k :: k in keys <==> k in h)
    requires n <= |keys| && (forall j | 0 <= j < n :: keys[j] < b) && (n < |keys| ==> b <= keys[n])
    ensures Without(h, keys[..n]) == KeepFrom(h, b)
  {
    forall k | k in h
      ensures k in keys[..n] <==> k < b
    {
      var j :| 0 <= j < |keys| && keys[j] == k;
      if j < n {
        assert keys[..n][j] == k;
      }
    }
  }

  class StatefulEventSubscriber<S, D> {
    var state: Option<S>
    var stateBlockNumber: nat
    var stateHistory: map<nat, S>
    var invalid: bool
    var inactive: bool
    const processLog: (S, Log<D>) -> Option<S>

    ghost function View(): Snapshot<S>
      reads this
    {
      Snapshot(state, stateBlockNumber, stateHistory, invalid, inactive)
    }

    constructor (processLog: (S, Log<D>) -> Option<S>)
      ensures View() == Initial()
      ensures this.processLog == processLog
    {
      this.processLog := processLog;
      state, stateBlockNumber, stateHistory, invalid, inactive := None, 0, map[], false, false;
    }

    method SetState(newState: S, blockNumber: nat)
      modifies this
      ensures View() == Steps.SetState(true, old(View()), newState, blockNumber)
    {
      if blockNumber == 0 {
        return;
      }
      stateHistory := stateHistory[blockNumber := newState];
      if state.None? || stateBlockNumber <= blockNumber {
        state, stateBlockNumber := Some(newState), blockNumber;
        invalid := false;
      }
      PruneHistory(stateBlockNumber - MAX_BLOCKS_HISTORY);
    }

    /** The clean-up loop at the end of `setState`. */
    method PruneHistory(minBlockNumberToKeep: int)
      modifies this`stateHistory
      ensures stateHistory == Prune(old(stateHistory), minBlockNumberToKeep)
    {
      ghost var h := stateHistory;
      var keys := SortedKeys(stateHistory);
      var lastBlockNumber: Option<nat> := None;
      var i := 0;
      ghost var dropped := 0;
      while i < |keys|
        invariant 0 <= i <= |keys| && dropped == if i == 0 then 0 else i - 1
        invariant lastBlockNumber == if i == 0 then None else Some(keys[i - 1])
        invariant forall j | 0 <= j < i :: keys[j] < minBlockNumberToKeep
        invariant stateHistory == Without(h, keys[..dropped])
      {
        var bn := keys[i];
        if bn <= minBlockNumberToKeep && lastBlockNumber.Some? {
          stateHistory := stateHistory - {lastBlockNumber.value};
          assert keys[..i] == keys[..dropped] + [keys[i - 1]];
          dropped := i;
        }
        if minBlockNumberToKeep <= bn {
          break;
        }
        lastBlockNumber := Some(bn);
        i := i + 1;
      }
      DroppedAreSuperseded(h, keys, dropped, minBlockNumberToKeep);
    }

    /** The loop of `rollback` for an invalid state. */
    method DropAbove(blockNumber: nat) returns (lastBn: Option<nat>)
      modifies this`stateHistory
      ensures stateHistory == KeepUpTo(old(stateHistory), blockNumber, blockNumber)
      ensures lastBn == LatestKey(old(stateHistory).Keys, blockNumber + 1)
    {
      ghost var h := stateHistory;
      var keys := SortedKeys(stateHistory);
      WithoutAboveAll(h, keys, blockNumber, blockNumber);
      lastBn := None;
      var i := 0;
      while i < |keys|
        invariant 0 <= i <= |keys|
        invariant stateHistory == WithoutAbove(h, keys[..i], blockNumber, blockNumber)
        invariant lastBn == LastUpTo(keys[..i], blockNumber)
      {
        assert keys[..i + 1] == keys[..i] + [keys[i]];
        WithoutAboveNext(h, keys[..i], keys[i], blockNumber, blockNumber);
        if blockNumber < keys[i] {
          stateHistory := stateHistory - {keys[i]};
        } else {
          lastBn := Some(keys[i]);
        }
        i := i + 1;
      }
      assert keys[..i] == keys;
      LastUpToIsLatest(h, keys, blockNumber);
    }

    /** The loop of `rollback` for a state that is not invalid. */
    method DropAboveExceptCurrent(blockNumber: nat)
      modifies this`stateHistory
      ensures stateHistory == KeepUpTo(old(stateHistory), blockNumber, stateBlockNumber)
    {
      ghost var h := stateHistory;
      var keys := SortedKeys(stateHistory);
      WithoutAboveAll(h, keys, blockNumber, stateBlockNumber);
      var i := 0;
      while i < |keys|
        invariant 0 <= i <= |keys|
        invariant stateHistory == WithoutAbove(h, keys[..i], blockNumber, stateBlockNumber)
      {
        assert keys[..i + 1] == keys[..i] + [keys[i]];
        WithoutAboveNext(h, keys[..i], keys[i], blockNumber, stateBlockNumber);
        if blockNumber < keys[i] && keys[i] != stateBlockNumber {
          stateHistory := stateHistory - {keys[i]};
        }
        i := i + 1;
      }
      assert keys[..i] == keys;
    }

    method Rollback(blockNumber: nat)
      modifies this
      ensures View() == Steps.Rollback(old(View()), blockNumber)
    {
      if invalid {
        LatestKeyNone(stateHistory.Keys, blockNumber + 1);
        var lastBn := DropAbove(blockNumber);
        if lastBn.Some? {
          state, stateBlockNumber := Some(stateHistory[lastBn.value]), lastBn.value;
        } else {
          state, stateBlockNumber := None, blockNumber;
        }
      } else {
        DropAboveExceptCurrent(blockNumber);
      }
    }

    method Restart(blockNumber: nat)
      modifies this
      ensures View() == Steps.Restart(old(View()), blockNumber)
    {
      DropBelow(blockNumber);
      if state.Some? && stateBlockNumber < blockNumber {
        state, stateBlockNumber := None, blockNumber;
      }
    }

    /** The loop of `restart`. */
    method DropBelow(blockNumber: nat)
      modifies this`stateHistory
      ensures stateHistory == KeepFrom(old(stateHistory), blockNumber)
    {
      ghost var h := stateHistory;
      var keys := SortedKeys(stateHistory);
      var i := 0;
      while i < |keys|
        invariant 0 <= i <= |keys|
        invariant forall j | 0 <= j < i :: keys[j] < blockNumber
        invariant stateHistory == Without(h, keys[..i])
      {
        if blockNumber <= keys[i] {
          break;
        }
        stateHistory := stateHistory - {keys[i]};
        i := i + 1;
      }
      DroppedAreBelow(h, keys, i, blockNumber);
    }

    method Invalidate()
      modifies this
      ensures View() == old(View()).(invalid := true)
    {
      invalid := true;
    }

    method Inactivate()
      modifies this
      ensures View() == old(View()).(inactive := true)
    {
      inactive := true;
    }

    method ProcessBlockLogs(start: S, logs: seq<Log<D>>) returns (next: Option<S>)
      ensures next == BlockResult(processLog, start, logs)
    {
      next := None;
      for i := 0 to |logs|
        invariant next == BlockResult(processLog, start, logs[..i])
      {
        assert logs[..i + 1][..i] == logs[..i];
        var ret := processLog(next.GetOr(start), logs[i]);
        if ret.Some? {
          next := ret;
        }
      }
      assert logs[..|logs|] == logs;
    }

    /** The last recorded state before `blockNumber`. */
    method StateBefore(blockNumber: nat) returns (k: Option<nat>)
      ensures k == LatestKey(stateHistory.Keys, blockNumber)
    {
      var keys := SortedKeys(stateHistory);
      k := None;
      var i := 0;
      while i < |keys|
        invariant 0 <= i <= |keys|
        invariant forall j | 0 <= j < i :: keys[j] < blockNumber
        invariant k == if i == 0 then None else Some(keys[i - 1])
      {
        if blockNumber <= keys[i] {
          break;
        }
        k := Some(keys[i]);
        i := i + 1;
      }
      LatestKeyNone(stateHistory.Keys, blockNumber);
      if k.Some? {
        assert IsLatest(stateHistory.Keys, blockNumber, k.value);
      }
    }

    /** The end of the run of logs that share the block of `logs[index]`. */
    method BlockEnd(logs: seq<Log<D>>, index: nat) returns (end: nat)
      requires index < |logs|
      ensures index < end <= |logs|
      ensures end - index == GroupLength(logs[index..])
    {
      end := index + 1;
      while end < |logs| && logs[end].blockNumber == logs[index].blockNumber
        invariant index < end <= |logs|
        invariant forall i | index <= i < end :: logs[i].blockNumber == logs[index].blockNumber
      {
        end := end + 1;
      }
      GroupLengthIs(logs[index..], end - index);
    }

    /** The body of the loop of `update`, for the logs of one block. */
    method ProcessBlock(blockNumber: nat, logs: seq<Log<D>>, regen: S)
      modifies this
      ensures View() == BlockStep(true, processLog, old(View()), blockNumber, logs, regen)
    {
      if state.None? {
        SetState(regen, blockNumber);
      }
      var before := StateBefore(blockNumber);
      LatestKeyNone(stateHistory.Keys, blockNumber);
      if before.Some? {
        var next := ProcessBlockLogs(stateHistory[before.value], logs);
        if next.Some? {
          SetState(next.value, blockNumber);
        }
      }
    }

    /** `generate` is what `generateState` answers while the call lasts. */
    method Update(logs: seq<Log<D>>, generate: nat -> S)
      modifies this
      ensures View() == Steps.Update(processLog, old(View()), logs, generate)
    {
      if inactive {
        return;
      }
      var index := 0;
      ghost var target := Groups(processLog, View(), logs, generate);
      assert logs[0..] == logs;
      while index < |logs|
        invariant 0 <= index <= |logs|
        invariant Groups(processLog, View(), logs[index..], generate) == target
        decreases |logs| - index
      {
        var indexBlockEnd := BlockEnd(logs, index);
        GroupsNext(processLog, View(), logs, index, indexBlockEnd, generate);
        ProcessBlock(logs[index].blockNumber, logs[index..indexBlockEnd], generate(logs[index].blockNumber));
        index := indexBlockEnd;
      }
      assert logs[index..] == [];
      invalid := false;
    }

    /** A usable state, or none when the caller has to derive one itself. */
    method GetState(minBlockNumber: nat, isTracking: bool) returns (r: Option<S>)
      ensures r.Some? <==> state.Some? && !invalid && (isTracking || minBlockNumber <= stateBlockNumber)
      ensures r.Some? ==> r == state
    {
      if state.None? || invalid {
        return None;
      }
      if isTracking || minBlockNumber <= stateBlockNumber {
        return state;
      }
      return None;
    }
  }
}
