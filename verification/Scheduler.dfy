/** `PromiseScheduler`: batches of promises, run one after the other, until each has succeeded. */
module Scheduler {

  /** One call of `parallelLimit`: the promises it was given, which of them have not finished yet,
      and the counter its tasks share. */
  datatype Batch<P> = Batch(tasks: seq<P>, open: set<nat>, count: nat)

  /** `timers` counts the timeouts that will call `run`; `done` holds what finished with true. */
  datatype State<P> = State(promises: seq<P>, timers: nat, batches: seq<Batch<P>>, done: multiset<P>)

  datatype Event<P> = Add(p: P) | Fire | Finish(batch: nat, task: nat, ok: bool)

  predicate Possible<P>(s: State<P>, e: Event<P>) {
    match e
    case Add(_) => true
    case Fire => s.timers > 0
    case Finish(b, t, _) => b < |s.batches| && t < |s.batches[b].tasks| && t in s.batches[b].open
  }

  function Indices(n: nat): (r: set<nat>)
    ensures forall i: int :: i in r <==> 0 <= i < n
    ensures |r| == n
  {
    if n == 0 then {} else Indices(n - 1) + {n - 1}
  }

  function Added<P>(s: State<P>, p: P): State<P> {
    s.(promises := s.promises + [p])
  }

  function Started<P>(s: State<P>): State<P> {
    if s.promises == [] then s.(timers := s.timers + 1)
    else s.(promises := [], batches := s.batches + [Batch(s.promises, Indices(|s.promises|), 0)])
  }

  /** A task that fails, or throws, adds its promise again; the last one arms the timer. */
  function Finished<P>(s: State<P>, b: nat, t: nat, ok: bool): State<P>
    requires Possible(s, Finish(b, t, ok))
  {
    var batch := s.batches[b];
    var next := Batch(batch.tasks, batch.open - {t}, batch.count + 1);
    State(if ok then s.promises else s.promises + [batch.tasks[t]],
          if next.count == |next.tasks| then s.timers + 1 else s.timers,
          s.batches[b := next],
          if ok then s.done + multiset{batch.tasks[t]} else s.done)
  }

  function Step<P>(s: State<P>, e: Event<P>): State<P>
    requires Possible(s, e)
  {
    match e
    case Add(p) => Added(s, p)
    case Fire => Started(s.(timers := s.timers - 1))
    case Finish(b, t, ok) => Finished(s, b, t, ok)
  }

  /** The constructor calls `run` once. */
  function Initial<P>(): State<P> {
    Started(State([], 0, [], multiset{}))
  }

  // ----- what every interleaving keeps -----

  predicate Counts<P>(b: Batch<P>) {
    && (forall i | i in b.open :: i < |b.tasks|)
    && b.count + |b.open| == |b.tasks|
  }

  /** Either the timer is armed once and every batch is over, or there is no timer and the last
      batch, and no other, is still running. */
  predicate OneAtATime<P>(s: State<P>) {
    && (forall i | 0 <= i < |s.batches| :: Counts(s.batches[i]))
    && (forall i | 0 <= i < |s.batches| - 1 :: s.batches[i].open == {})
    && if s.timers == 0 then |s.batches| > 0 && s.batches[|s.batches| - 1].open != {}
       else s.timers == 1 && (|s.batches| > 0 ==> s.batches[|s.batches| - 1].open == {})
  }

  /** How many of the first `n` tasks are for `p` and have not finished. */
  function OpenTasks<P(==)>(b: Batch<P>, n: nat, p: P): nat
    requires n <= |b.tasks|
  {
    if n == 0 then 0
    else OpenTasks(b, n - 1, p) + if n - 1 in b.open && b.tasks[n - 1] == p then 1 else 0
  }

  function InFlight<P(==)>(batches: seq<Batch<P>>, p: P): nat {
    if batches == [] then 0
    else
      var last := batches[|batches| - 1];
      InFlight(batches[..|batches| - 1], p) + OpenTasks(last, |last.tasks|, p)
  }

  function Waiting<P(==)>(s: State<P>, p: P): nat {
    multiset(s.promises)[p]
  }

  /** How often a promise is somewhere. */
  function Accounted<P(==)>(s: State<P>, p: P): nat {
    Waiting(s, p) + InFlight(s.batches, p) + s.done[p]
  }

  lemma {:induction false} AllOpen<P>(b: Batch<P>, n: nat, p: P)
    requires n <= |b.tasks| && b.open == Indices(|b.tasks|)
    ensures OpenTasks(b, n, p) == multiset(b.tasks[..n])[p]
  {
    if n > 0 {
      AllOpen(b, n - 1, p);
      assert b.tasks[..n] == b.tasks[..n - 1] + [b.tasks[n - 1]];
    }
  }

  lemma {:induction false} CloseOne<P>(b: Batch<P>, t: nat, n: nat, next: Batch<P>, p: P)
    requires n <= |b.tasks| && t < |b.tasks| && t in b.open
    requires next.tasks == b.tasks && next.open == b.open - {t}
    ensures OpenTasks(b, n, p) == OpenTasks(next, n, p) + if t < n && b.tasks[t] == p then 1 else 0
  {
    if n > 0 {
      CloseOne(b, t, n - 1, next, p);
    }
  }

  lemma {:induction false} InFlightUpdate<P>(batches: seq<Batch<P>>, b: nat, t: nat, next: Batch<P>, p: P)
    requires b < |batches| && t < |batches[b].tasks| && t in batches[b].open
    requires next.tasks == batches[b].tasks && next.open == batches[b].open - {t}
    ensures InFlight(batches, p) == InFlight(batches[b := next], p) + if batches[b].tasks[t] == p then 1 else 0
  {
    var last := |batches| - 1;
    var after := batches[b := next];
    if b == last {
      CloseOne(batches[b], t, |next.tasks|, next, p);
      assert after[..last] == batches[..last];
    } else {
      InFlightUpdate(batches[..last], b, t, next, p);
      assert after[..last] == batches[..last][b := next];
    }
  }

  lemma InFlightSnoc<P>(batches: seq<Batch<P>>, promises: seq<P>, p: P)
    ensures InFlight(batches + [Batch(promises, Indices(|promises|), 0)], p) ==
            InFlight(batches, p) + multiset(promises)[p]
  {
    var b := Batch(promises, Indices(|promises|), 0);
    AllOpen(b, |promises|, p);
    assert promises[..|promises|] == promises;
    assert (batches + [b])[..|batches|] == batches;
  }

  lemma InitialIsGood<P>()
    ensures OneAtATime(Initial<P>())
    ensures forall p: P :: Accounted(Initial(), p) == 0
  {
  }

  lemma StepOneAtATime<P>(s: State<P>, e: Event<P>)
    requires OneAtATime(s) && Possible(s, e)
    ensures OneAtATime(Step(s, e))
  {
    match e
    case Add(_) =>
    case Fire =>
      if s.promises != [] {
        assert 0 in Indices(|s.promises|);
      }
    case Finish(b, t, ok) =>
      FinishOneAtATime(s, b, t, ok);
  }

  lemma FinishOneAtATime<P>(s: State<P>, b: nat, t: nat, ok: bool)
    requires OneAtATime(s) && Possible(s, Finish(b, t, ok))
    ensures OneAtATime(Finished(s, b, t, ok))
  {
    assert b == |s.batches| - 1;
    var next := Finished(s, b, t, ok).batches[b];
    assert |next.open| == |s.batches[b].open| - 1;
    assert Counts(next);
    assert next.open == {} <==> next.count == |next.tasks|;
  }

  lemma StepConserves<P>(s: State<P>, e: Event<P>, p: P)
    requires Possible(s, e)
    ensures Accounted(Step(s, e), p) == Accounted(s, p) + if e == Add(p) then 1 else 0
  {
    match e
    case Add(_) =>
    case Fire =>
      if s.promises != [] {
        InFlightSnoc(s.batches, s.promises, p);
      }
    case Finish(b, t, ok) =>
      InFlightUpdate(s.batches, b, t, Step(s, e).batches[b], p);
  }

  // ----- runs -----

  /** The states a run goes through are those its events lead to. */
  predicate Runs<P>(s: State<P>, events: seq<Event<P>>, s': State<P>)
    decreases |events|
  {
    if events == [] then s' == s
    else Possible(s, events[0]) && Runs(Step(s, events[0]), events[1..], s')
  }

  /** How often a run adds a promise. */
  function Additions<P(==)>(events: seq<Event<P>>, p: P): nat {
    if events == [] then 0 else (if events[0] == Add(p) then 1 else 0) + Additions(events[1..], p)
  }

  lemma {:induction false} RunKeeps<P>(s: State<P>, events: seq<Event<P>>, s': State<P>, p: P)
    requires OneAtATime(s) && Runs(s, events, s')
    ensures OneAtATime(s') && Accounted(s', p) == Accounted(s, p) + Additions(events, p)
    decreases |events|
  {
    if events != [] {
      StepOneAtATime(s, events[0]);
      StepConserves(s, events[0], p);
      RunKeeps(Step(s, events[0]), events[1..], s', p);
    }
  }

  /** In every interleaving: a promise is waiting, in flight or done, as often as it was added. */
  lemma NothingIsLost<P>(events: seq<Event<P>>, s: State<P>, p: P)
    requires Runs(Initial(), events, s)
    ensures Waiting(s, p) + InFlight(s.batches, p) + s.done[p] == Additions(events, p)
  {
    InitialIsGood<P>();
    RunKeeps(Initial(), events, s, p);
  }

  /** Batches never overlap, and the timer is armed exactly while none is running. */
  lemma BatchesNeverOverlap<P>(events: seq<Event<P>>, s: State<P>)
    requires Runs(Initial(), events, s)
    ensures s.timers <= 1
    ensures s.timers == 1 <==> forall b | 0 <= b < |s.batches| :: s.batches[b].open == {}
    ensures forall b, c | 0 <= b < |s.batches| && 0 <= c < |s.batches| ::
              s.batches[b].open != {} && s.batches[c].open != {} ==> b == c
  {
    ReachableOneAtATime(events, s);
  }

  lemma {:induction false} RunsOneAtATime<P>(s: State<P>, events: seq<Event<P>>, s': State<P>)
    requires OneAtATime(s) && Runs(s, events, s')
    ensures OneAtATime(s')
    decreases |events|
  {
    if events != [] {
      StepOneAtATime(s, events[0]);
      RunsOneAtATime(Step(s, events[0]), events[1..], s');
    }
  }

  lemma ReachableOneAtATime<P>(events: seq<Event<P>>, s: State<P>)
    requires Runs(Initial(), events, s)
    ensures OneAtATime(s)
  {
    InitialIsGood<P>();
    RunsOneAtATime(Initial(), events, s);
  }

  /** The scheduler is never stuck: a task of the running batch can end, or the timer can fire. */
  lemma NeverStuck<P>(events: seq<Event<P>>, s: State<P>) returns (next: Event<P>)
    requires Runs(Initial(), events, s)
    ensures !next.Add? && Possible(s, next)
  {
    ReachableOneAtATime(events, s);
    if s.timers > 0 {
      next := Fire;
    } else {
      next := SomeTask(s, |s.batches| - 1);
    }
  }

  lemma SomeTask<P>(s: State<P>, b: nat) returns (next: Event<P>)
    requires b < |s.batches| && s.batches[b].open != {} && Counts(s.batches[b])
    ensures !next.Add? && Possible(s, next)
  {
    var t :| t in s.batches[b].open;
    next := Finish(b, t, true);
  }

  /** And when it fires, everything that waits is in flight: a promise that failed gets its next try. */
  lemma FireSendsAll<P>(events: seq<Event<P>>, s: State<P>, p: P)
    requires Runs(Initial(), events, s) && Possible(s, Fire)
    ensures Waiting(Step(s, Fire), p) == 0 && InFlight(Step(s, Fire).batches, p) == Waiting(s, p)
  {
    ReachableOneAtATime(events, s);
    NothingInFlight(s.batches, p);
    if s.promises != [] {
      InFlightSnoc(s.batches, s.promises, p);
    }
  }

  /** A promise is done exactly when its task succeeds; one that fails waits behind those already
      waiting, and everything that waits is sent in the order it was added. */
  lemma OnlySuccessEnds<P>(s: State<P>, b: nat, t: nat, ok: bool)
    requires Possible(s, Finish(b, t, ok))
    ensures var next, p := Step(s, Finish(b, t, ok)), s.batches[b].tasks[t];
            && next.done == (if ok then s.done + multiset{p} else s.done)
            && next.promises == (if ok then s.promises else s.promises + [p])
            && t !in next.batches[b].open && next.batches[b].tasks == s.batches[b].tasks
    ensures forall p :: Step(s, Add(p)).promises == s.promises + [p]
    ensures s.timers > 0 && s.promises != [] ==>
              var batches := Step(s, Fire).batches; |batches| > 0 && batches[|batches| - 1].tasks == s.promises
  {
  }

  lemma {:induction false} NothingInFlight<P>(batches: seq<Batch<P>>, p: P)
    requires forall i | 0 <= i < |batches| :: batches[i].open == {}
    ensures InFlight(batches, p) == 0
  {
    if batches != [] {
      var last := batches[|batches| - 1];
      NothingOpen(last, |last.tasks|, p);
      NothingInFlight(batches[..|batches| - 1], p);
    }
  }

  lemma {:induction false} NothingOpen<P>(b: Batch<P>, n: nat, p: P)
    requires n <= |b.tasks| && b.open == {}
    ensures OpenTasks(b, n, p) == 0
  {
    if n > 0 {
      NothingOpen(b, n - 1, p);
    }
  }

  // ----- the class -----

  class PromiseScheduler<P(==)> {
    var promises: seq<P>
    var timers: nat
    var batches: seq<Batch<P>>
    ghost var done: multiset<P>

    ghost function View(): State<P>
      reads this
    {
      State(promises, timers, batches, done)
    }

    constructor ()
      ensures View() == Initial()
    {
      promises, timers, batches, done := [], 0, [], multiset{};
      new;
      Run();
    }

    method AddPromise(p: P)
      modifies this
      ensures View() == Added(old(View()), p)
    {
      promises := promises + [p];
    }

    method Run()
      modifies this
      ensures View() == Started(old(View()))
    {
      if |promises| == 0 {
        timers := timers + 1;
        return;
      }
      var promisesToExecute := promises;
      promises := [];
      batches := batches + [Batch(promisesToExecute, Indices(|promisesToExecute|), 0)];
    }

    method TimerFires()
      requires Possible(View(), Fire)
      modifies this
      ensures View() == Step(old(View()), Fire)
    {
      timers := timers - 1;
      Run();
    }

    /** The end of one task: its promise gave `res`, where an exception counts as false. */
    method TaskEnds(b: nat, t: nat, res: bool)
      requires Possible(View(), Finish(b, t, res))
      modifies this
      ensures View() == Step(old(View()), Finish(b, t, res))
    {
      var batch := batches[b];
      var p := batch.tasks[t];
      if !res {
        AddPromise(p);
      } else {
        done := done + multiset{p};
      }
      batches := batches[b := Batch(batch.tasks, batch.open - {t}, batch.count + 1)];
      if batches[b].count == |batch.tasks| {
        timers := timers + 1;
      }
    }
  }
}
