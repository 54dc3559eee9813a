/** The worker scheduler as a machine whose steps are cron ticks, handler settlements,
    timers, promise continuations and the stages of stop(). */
module Scheduler {
  import opened Wrappers

  // ----- State -----

  /** Where the current run of a worker stands. A run races the handler against the timer,
      is then counted, and lastly releases the worker. A handler that throws before
      returning a promise skips the race and the counting. */
  datatype Phase =
    | Idle
    | Racing(settled: Option<bool>, timerFired: bool)
    | Counted
    | Crashed

  /** running stands for the stored promise being non-null. orphans are handlers still
      executing although their run was counted as a timeout. */
  datatype Worker = Worker(
    inFlight: bool, running: bool, phase: Phase,
    fires: nat, skipped: nat, success: nat, failure: nat, timeout: nat, crashed: nat,
    started: nat, finished: nat, orphans: nat)

  datatype Outcome = Drained | GraceExpired | Rejected

  /** awaited are the workers whose promise stop() captured; rejecting says that one of
      those promises was rejected. */
  datatype State = State(
    workers: seq<Worker>, stopped: bool, awaited: set<nat>, rejecting: bool, outcome: Option<Outcome>)

  datatype Event =
    | Tick(w: nat, throws: bool)
    | Settle(w: nat, ok: bool)
    | Timer(w: nat)
    | Resume(w: nat)
    | Finish(w: nat)
    | OrphanSettle(w: nat)
    | StopCall
    | DrainDone
    | GraceTimer
    | DrainRejected

  const NewWorker := Worker(false, false, Idle, 0, 0, 0, 0, 0, 0, 0, 0, 0)

  function Initial(n: nat): State {
    State(seq(n, _ => NewWorker), false, {}, false, None)
  }

  // ----- Steps -----

  predicate Enabled(s: State, e: Event) {
    match e
    case Tick(w, _) => w < |s.workers|
    case Settle(w, _) => w < |s.workers| && s.workers[w].phase.Racing? && s.workers[w].phase.settled.None?
    case Timer(w) => w < |s.workers| && s.workers[w].phase.Racing? && !s.workers[w].phase.timerFired
    case Resume(w) =>
      && w < |s.workers| && s.workers[w].phase.Racing?
      && (s.workers[w].phase.settled.Some? || s.workers[w].phase.timerFired)
    case Finish(w) => w < |s.workers| && (s.workers[w].phase.Counted? || s.workers[w].phase.Crashed?)
    case OrphanSettle(w) => w < |s.workers| && s.workers[w].orphans > 0
    case StopCall => !s.stopped
    case DrainDone =>
      && s.stopped && s.outcome.None? && !s.rejecting
      && forall w | w in s.awaited :: w < |s.workers| && !s.workers[w].running
    case GraceTimer => s.stopped && s.outcome.None?
    case DrainRejected => s.stopped && s.outcome.None? && s.rejecting
  }

  /** A tick before stop: skipped while a run is in flight, otherwise the start of a run. */
  function Fire(k: Worker, throws: bool): Worker {
    if k.inFlight then k.(fires := k.fires + 1, skipped := k.skipped + 1)
    else
      k.(fires := k.fires + 1, started := k.started + 1, inFlight := true, running := true,
         phase := if throws then Crashed else Racing(None, false),
         crashed := if throws then k.crashed + 1 else k.crashed)
  }

  function Count(k: Worker): Worker
    requires k.phase.Racing?
  {
    match k.phase.settled
    case Some(true) => k.(phase := Counted, success := k.success + 1)
    case Some(false) => k.(phase := Counted, failure := k.failure + 1)
    case None => k.(phase := Counted, timeout := k.timeout + 1, orphans := k.orphans + 1)
  }

  function Release(k: Worker): Worker {
    k.(phase := Idle, inFlight := false, running := false, finished := k.finished + 1)
  }

  function Set(s: State, w: nat, k: Worker): State
    requires w < |s.workers|
  {
    s.(workers := s.workers[w := k])
  }

  function RunningSet(s: State): set<nat> {
    set w: nat | w < |s.workers| && s.workers[w].running
  }

  function Step(s: State, e: Event): State
    requires Enabled(s, e)
  {
    match e
    case Tick(w, throws) => if s.stopped then s else Set(s, w, Fire(s.workers[w], throws))
    case Settle(w, ok) => Set(s, w, s.workers[w].(phase := s.workers[w].phase.(settled := Some(ok))))
    case Timer(w) => Set(s, w, s.workers[w].(phase := s.workers[w].phase.(timerFired := true)))
    case Resume(w) => Set(s, w, Count(s.workers[w]))
    case Finish(w) =>
      Set(s, w, Release(s.workers[w])).(rejecting := s.rejecting || (w in s.awaited && s.workers[w].phase.Crashed?))
    case OrphanSettle(w) => Set(s, w, s.workers[w].(orphans := s.workers[w].orphans - 1))
    case StopCall => s.(stopped := true, awaited := RunningSet(s))
    case DrainDone => s.(outcome := Some(Drained))
    case GraceTimer => s.(outcome := Some(GraceExpired))
    case DrainRejected => s.(outcome := Some(Rejected))
  }

  // ----- The scheduler as an object -----

  class Scheduler {
    var workers: seq<Worker>
    var stopped: bool
    var awaited: set<nat>
    var rejecting: bool
    var outcome: Option<Outcome>

    constructor (n: nat)
      ensures Model() == Initial(n) && Invariant(Model())
    {
      workers := seq(n, _ => NewWorker);
      stopped, awaited, rejecting, outcome := false, {}, false, None;
    }

    function Model(): State
      reads this
    {
      State(workers, stopped, awaited, rejecting, outcome)
    }

    /** runOnce up to its first suspension. */
    method RunOnce(w: nat, throws: bool)
      requires Invariant(Model())
      requires Enabled(Model(), Tick(w, throws))
      modifies this
      ensures Invariant(Model())
      ensures Model() == Step(old(Model()), Tick(w, throws))
    {
      StepKeepsInvariant(Model(), Tick(w, throws));
      hide Invariant;
      if stopped { return; }
      var k := workers[w];
      k := k.(fires := k.fires + 1);
      if k.inFlight {
        k := k.(skipped := k.skipped + 1);
        workers := workers[w := k];
        return;
      }
      k := k.(inFlight := true, started := k.started + 1);
      if throws {
        k := k.(phase := Crashed, crashed := k.crashed + 1);
      } else {
        k := k.(phase := Racing(None, false));
      }
      k := k.(running := true);
      workers := workers[w := k];
    }

    method HandlerSettled(w: nat, ok: bool)
      requires Invariant(Model())
      requires Enabled(Model(), Settle(w, ok))
      modifies this`workers
      ensures Invariant(Model())
      ensures Model() == Step(old(Model()), Settle(w, ok))
    {
      StepKeepsInvariant(Model(), Settle(w, ok));
      hide Invariant;
      workers := workers[w := workers[w].(phase := workers[w].phase.(settled := Some(ok)))];
    }

    method TimerFired(w: nat)
      requires Invariant(Model())
      requires Enabled(Model(), Timer(w))
      modifies this`workers
      ensures Invariant(Model())
      ensures Model() == Step(old(Model()), Timer(w))
    {
      StepKeepsInvariant(Model(), Timer(w));
      hide Invariant;
      workers := workers[w := workers[w].(phase := workers[w].phase.(timerFired := true))];
    }

    /** After the race: the timer is cleared and the run is counted once. */
    method AfterRace(w: nat)
      requires Invariant(Model())
      requires Enabled(Model(), Resume(w))
      modifies this`workers
      ensures Invariant(Model())
      ensures Model() == Step(old(Model()), Resume(w))
    {
      StepKeepsInvariant(Model(), Resume(w));
      hide Invariant;
      var k := workers[w];
      var settled := k.phase.settled;
      if settled.Some? {
        if settled.value {
          k := k.(success := k.success + 1);
        } else {
          k := k.(failure := k.failure + 1);
        }
      } else {
        k := k.(timeout := k.timeout + 1, orphans := k.orphans + 1);
      }
      workers := workers[w := k.(phase := Counted)];
    }

    method Finally(w: nat)
      requires Invariant(Model())
      requires Enabled(Model(), Finish(w))
      modifies this`workers, this`rejecting
      ensures Invariant(Model())
      ensures Model() == Step(old(Model()), Finish(w))
    {
      StepKeepsInvariant(Model(), Finish(w));
      hide Invariant;
      var k := workers[w];
      if w in awaited && k.phase.Crashed? { rejecting := true; }
      workers := workers[w := k.(phase := Idle, inFlight := false, running := false, finished := k.finished + 1)];
    }

    method Stop()
      requires Invariant(Model())
      requires Enabled(Model(), StopCall)
      modifies this`stopped, this`awaited
      ensures Invariant(Model())
      ensures Model() == Step(old(Model()), StopCall)
    {
      StepKeepsInvariant(Model(), StopCall);
      hide Invariant;
      stopped := true;
      awaited := {};
      for i := 0 to |workers|
        invariant stopped && awaited == set w: nat | w < i && workers[w].running
      {
        if workers[i].running { awaited := awaited + {i}; }
      }
    }

    method Decide(e: Event)
      requires Invariant(Model())
      requires (e.DrainDone? || e.GraceTimer? || e.DrainRejected?) && Enabled(Model(), e)
      modifies this`outcome
      ensures Invariant(Model())
      ensures Model() == Step(old(Model()), e)
    {
      StepKeepsInvariant(Model(), e);
      hide Invariant;
      outcome := Some(if e.DrainDone? then Drained else if e.GraceTimer? then GraceExpired else Rejected);
    }
  }

  // ----- Runs -----

  ghost predicate Possible(s: State, es: seq<Event>)
    decreases |es|
  {
    es == [] || (Enabled(s, es[0]) && Possible(Step(s, es[0]), es[1..]))
  }

  function Run(s: State, es: seq<Event>): State
    requires Possible(s, es)
    decreases |es|
  {
    if es == [] then s else Run(Step(s, es[0]), es[1..])
  }

  ghost predicate Reachable(s: State) {
    exists n: nat, es: seq<Event> :: Possible(Initial(n), es) && Run(Initial(n), es) == s
  }

  // ----- The invariant -----

  function Racers(k: Worker): nat {
    if k.phase.Racing? then 1 else 0
  }

  /** The flag, the promise and the phase agree; starts and finishes differ by the run in
      flight; every fire is accounted for exactly once. */
  predicate Accounted(k: Worker) {
    && k.inFlight == k.running == !k.phase.Idle?
    && k.started == k.finished + (if k.inFlight then 1 else 0)
    && k.fires == k.skipped + k.started
    && k.fires == k.skipped + k.success + k.failure + k.timeout + k.crashed + Racers(k)
    && (k.phase.Crashed? ==> k.crashed > 0)
  }

  ghost predicate Invariant(s: State) {
    && (forall w | 0 <= w < |s.workers| :: Accounted(s.workers[w]))
    && (forall w: nat | w < |s.workers| && s.stopped && s.workers[w].inFlight :: w in s.awaited)
    && (s.outcome.Some? ==> s.stopped)
    && (s.outcome == Some(Rejected) ==> s.rejecting)
    && (!s.stopped ==> s.awaited == {} && !s.rejecting)
    && (s.rejecting ==> exists w: nat :: w < |s.workers| && w in s.awaited && s.workers[w].crashed > 0)
    && (s.outcome == Some(Drained) ==> forall w | 0 <= w < |s.workers| :: !s.workers[w].inFlight)
  }

  lemma WorkerStepsKeepAccounted(k: Worker, throws: bool)
    requires Accounted(k)
    ensures Accounted(Fire(k, throws))
    ensures k.phase.Racing? ==> Accounted(Count(k))
    ensures k.phase.Counted? || k.phase.Crashed? ==> Accounted(Release(k))
    ensures forall settled: Option<bool>, fired: bool | k.phase.Racing? :: Accounted(k.(phase := Racing(settled, fired)))
    ensures forall n: nat :: Accounted(k.(orphans := n))
  {
  }

  lemma EveryWorkerStaysAccounted(s: State, e: Event, v: nat)
    requires Invariant(s) && Enabled(s, e) && v < |s.workers|
    ensures |Step(s, e).workers| == |s.workers| && Accounted(Step(s, e).workers[v])
  {
    hide Accounted, Fire, Count, Release;
    assert Accounted(s.workers[v]);
    WorkerStepsKeepAccounted(s.workers[v], e.Tick? && e.throws);
  }

  /** A rejected promise belongs to an awaited worker that has crashed. */
  lemma StaysRejecting(s: State, e: Event)
    requires Invariant(s) && Enabled(s, e) && Step(s, e).rejecting
    ensures var s' := Step(s, e); exists w: nat :: w < |s'.workers| && w in s'.awaited && s'.workers[w].crashed > 0
  {
    var s' := Step(s, e);
    if s.rejecting {
      var w: nat :| w < |s.workers| && w in s.awaited && s.workers[w].crashed > 0;
      assert s'.workers[w].crashed > 0;
      assert w in s'.awaited;
    } else {
      assert Accounted(s.workers[e.w]);
      assert s'.workers[e.w].crashed > 0;
    }
  }

  lemma StepKeepsInvariant(s: State, e: Event)
    requires Invariant(s) && Enabled(s, e)
    ensures Invariant(Step(s, e))
  {
    var s' := Step(s, e);
    forall w | 0 <= w < |s'.workers|
      ensures Accounted(s'.workers[w])
    {
      EveryWorkerStaysAccounted(s, e, w);
    }
    forall w: nat | w < |s'.workers| && s'.stopped && s'.workers[w].inFlight
      ensures w in s'.awaited
    {
      assert Accounted(s.workers[w]);
    }
    if s'.rejecting {
      StaysRejecting(s, e);
    }
    if e.DrainDone? {
      forall w: nat | w < |s.workers|
        ensures !s.workers[w].inFlight
      {
        assert Accounted(s.workers[w]);
      }
    }
  }

  lemma {:induction false} RunKeepsInvariant(s: State, es: seq<Event>)
    requires Invariant(s) && Possible(s, es)
    ensures Invariant(Run(s, es))
    decreases |es|
  {
    if es != [] {
      StepKeepsInvariant(s, es[0]);
      RunKeepsInvariant(Step(s, es[0]), es[1..]);
    }
  }

  /** Over all interleavings. */
  lemma ReachableInvariant(s: State)
    requires Reachable(s)
    ensures Invariant(s)
  {
    hide Possible, Run;
    var n: nat, es: seq<Event> :| Possible(Initial(n), es) && Run(Initial(n), es) == s;
    RunKeepsInvariant(Initial(n), es);
  }

  // ----- What it gives -----

  /** At most one run of a worker is in flight, and every fire before stop was skipped,
      counted under one status, lost to a synchronous throw, or is still racing. */
  lemma FiresAddUp(s: State, w: nat)
    requires Reachable(s) && w < |s.workers|
    ensures var k := s.workers[w];
            && (k.inFlight <==> k.running)
            && k.started - k.finished == (if k.inFlight then 1 else 0)
            && k.fires == k.skipped + k.success + k.failure + k.timeout + k.crashed + Racers(k)
            && (k.fires == k.skipped + k.success + k.failure + k.timeout + Racers(k) <==> k.crashed == 0)
  {
    ReachableInvariant(s);
    assert Accounted(s.workers[w]);
  }

  /** Cron ticks of worker w up to the call of stop(). */
  function TicksUntilStop(es: seq<Event>, w: nat): nat {
    if es == [] || es[0].StopCall? then 0
    else TicksUntilStop(es[1..], w) + if es[0].Tick? && es[0].w == w then 1 else 0
  }

  /** Handlers that settled after their run had been counted as a timeout. */
  function LateSettlements(es: seq<Event>, w: nat): nat {
    if es == [] then 0 else LateSettlements(es[1..], w) + if es[0] == OrphanSettle(w) then 1 else 0
  }

  /** Every tick before stop() is a fire, skipped ones too; the handlers still executing unseen are
      the timeouts that have not settled since. */
  lemma {:induction false} EveryTickFires(s: State, es: seq<Event>, w: nat)
    requires Possible(s, es) && w < |s.workers|
    ensures var t := Run(s, es);
            && |t.workers| == |s.workers|
            && t.workers[w].fires == s.workers[w].fires + (if s.stopped then 0 else TicksUntilStop(es, w))
            && t.workers[w].orphans + LateSettlements(es, w) + s.workers[w].timeout
               == s.workers[w].orphans + t.workers[w].timeout
    decreases |es|
  {
    if es != [] {
      EveryTickFires(Step(s, es[0]), es[1..], w);
    }
  }

  lemma DrainedMeansNoneInFlight(s: State, w: nat)
    requires Reachable(s) && w < |s.workers| && s.outcome == Some(Drained)
    ensures !s.workers[w].inFlight && s.workers[w].started == s.workers[w].finished
  {
    ReachableInvariant(s);
    assert Accounted(s.workers[w]);
  }

  /** After stop no run starts and no fire is counted, on any continuation. */
  lemma {:induction false} NothingStartsAfterStop(s: State, es: seq<Event>, w: nat)
    requires s.stopped && Possible(s, es) && w < |s.workers|
    ensures var s' := Run(s, es);
            && s'.stopped && |s'.workers| == |s.workers|
            && s'.workers[w].started == s.workers[w].started && s'.workers[w].fires == s.workers[w].fires
    decreases |es|
  {
    if es != [] {
      NothingStartsAfterStop(Step(s, es[0]), es[1..], w);
    }
  }

  // ----- What a settled handler, a fired timer and a decided stop mean for the rest of the run -----

  predicate HoldsRun(es: seq<Event>, w: nat) {
    Finish(w) !in es
  }

  /** From k on the run is counted by its handler's result, and never as a timeout. */
  predicate SettledAs(k: Worker, k': Worker, ok: bool) {
    && k'.inFlight && k'.timeout == k.timeout
    && if k'.phase.Racing? then k'.phase.settled == Some(ok) && k'.success == k.success && k'.failure == k.failure
       else
         && k'.phase.Counted?
         && k'.success == k.success + (if ok then 1 else 0) && k'.failure == k.failure + (if ok then 0 else 1)
  }

  /** Once the handler has settled, no timer and no other event changes how its run is counted. */
  lemma SettledRunCounted(s: State, w: nat, ok: bool, es: seq<Event>)
    requires Invariant(s) && Enabled(s, Settle(w, ok)) && Possible(Step(s, Settle(w, ok)), es) && HoldsRun(es, w)
    ensures w < |Run(Step(s, Settle(w, ok)), es).workers|
    ensures SettledAs(s.workers[w], Run(Step(s, Settle(w, ok)), es).workers[w], ok)
  {
    hide Possible, Run;
    assert Accounted(s.workers[w]);
    SettledStays(s.workers[w], Step(s, Settle(w, ok)), w, ok, es);
  }

  lemma {:induction false} SettledStays(k: Worker, s: State, w: nat, ok: bool, es: seq<Event>)
    requires w < |s.workers| && SettledAs(k, s.workers[w], ok) && Possible(s, es) && HoldsRun(es, w)
    ensures w < |Run(s, es).workers| && SettledAs(k, Run(s, es).workers[w], ok)
    decreases |es|
  {
    if es != [] {
      assert es[0] != Finish(w);
      SettledStays(k, Step(s, es[0]), w, ok, es[1..]);
    }
  }

  predicate Silent(es: seq<Event>, w: nat) {
    Settle(w, true) !in es && Settle(w, false) !in es
  }

  /** From k on the run is counted as a timeout, and as nothing else. */
  predicate TimedOutAs(k: Worker, k': Worker) {
    && k'.inFlight && k'.success == k.success && k'.failure == k.failure
    && if k'.phase.Racing? then k'.phase == Racing(None, true) && k'.timeout == k.timeout
       else k'.phase.Counted? && k'.timeout == k.timeout + 1
  }

  /** Once the timer has fired on a handler that stays silent, its run is counted as a timeout. */
  lemma SilentRunTimesOut(s: State, w: nat, es: seq<Event>)
    requires Invariant(s) && Enabled(s, Timer(w)) && s.workers[w].phase.settled.None?
    requires Possible(Step(s, Timer(w)), es) && HoldsRun(es, w) && Silent(es, w)
    ensures w < |Run(Step(s, Timer(w)), es).workers|
    ensures TimedOutAs(s.workers[w], Run(Step(s, Timer(w)), es).workers[w])
  {
    hide Possible, Run;
    assert Accounted(s.workers[w]);
    SilenceStays(s.workers[w], Step(s, Timer(w)), w, es);
  }

  lemma {:induction false} SilenceStays(k: Worker, s: State, w: nat, es: seq<Event>)
    requires w < |s.workers| && TimedOutAs(k, s.workers[w]) && Possible(s, es) && HoldsRun(es, w) && Silent(es, w)
    ensures w < |Run(s, es).workers| && TimedOutAs(k, Run(s, es).workers[w])
    decreases |es|
  {
    if es != [] {
      assert es[0] != Finish(w) && es[0] != Settle(w, true) && es[0] != Settle(w, false);
      SilenceStays(k, Step(s, es[0]), w, es[1..]);
    }
  }

  /** What the events of es say about how a run in state p ends up counted. */
  ghost predicate Evidence(p: Phase, es: seq<Event>, w: nat, k: Worker, k': Worker)
    requires p.Racing?
  {
    && (k'.success > k.success ==> p.settled == Some(true) || Settle(w, true) in es)
    && (k'.failure > k.failure ==> p.settled == Some(false) || Settle(w, false) in es)
    && (k'.timeout > k.timeout ==> p.settled.None? && (p.timerFired || Timer(w) in es))
  }

  /** k' is k with its run counted under one status, or under none yet. */
  predicate CountedOnce(k: Worker, k': Worker) {
    && k'.inFlight && (k'.phase.Racing? || k'.phase.Counted?)
    && k'.success >= k.success && k'.failure >= k.failure && k'.timeout >= k.timeout
    && k'.success + k'.failure + k'.timeout == k.success + k.failure + k.timeout + 1 - Racers(k')
  }

  /** From its start to its release a run is counted once, under one status, and never before
      something happened that justifies it: the handler's success, its failure, or the timer. */
  lemma CountedByResult(s: State, w: nat, es: seq<Event>)
    requires Invariant(s) && w < |s.workers| && !s.stopped && !s.workers[w].inFlight
    requires Possible(Step(s, Tick(w, false)), es) && HoldsRun(es, w)
    ensures var k, t := s.workers[w], Run(Step(s, Tick(w, false)), es);
            && w < |t.workers| && CountedOnce(k, t.workers[w])
            && (t.workers[w].success > k.success ==> Settle(w, true) in es)
            && (t.workers[w].failure > k.failure ==> Settle(w, false) in es)
            && (t.workers[w].timeout > k.timeout ==> Timer(w) in es)
  {
    hide Possible, Run;
    CountedOnRun(Step(s, Tick(w, false)), w, es);
  }

  lemma {:induction false} CountedOnRun(s: State, w: nat, es: seq<Event>)
    requires w < |s.workers| && s.workers[w].inFlight && s.workers[w].phase.Racing?
    requires Possible(s, es) && HoldsRun(es, w)
    ensures var k, t := s.workers[w], Run(s, es);
            w < |t.workers| && CountedOnce(k, t.workers[w]) && Evidence(k.phase, es, w, k, t.workers[w])
    decreases |es|
  {
    if es != [] {
      var e, rest, s' := es[0], es[1..], Step(s, es[0]);
      assert e != Finish(w) && es == [e] + rest;
      assert HoldsRun(rest, w);
      RacingStep(s, e, w);
      hide Step, Enabled, HoldsRun;
      if e == Resume(w) {
        CountStays(s', w, rest);
      } else {
        CountedOnRun(s', w, rest);
      }
    }
  }

  /** What one event does to a worker whose run is racing. */
  lemma RacingStep(s: State, e: Event, w: nat)
    requires w < |s.workers| && s.workers[w].inFlight && s.workers[w].phase.Racing? && Enabled(s, e) && e != Finish(w)
    ensures |Step(s, e).workers| == |s.workers|
    ensures var k, k' := s.workers[w], Step(s, e).workers[w];
            && k'.inFlight
            && if e == Resume(w) then
                 && k'.phase.Counted? && CountedOnce(k, k')
                 && (k'.success > k.success ==> k.phase.settled == Some(true))
                 && (k'.failure > k.failure ==> k.phase.settled == Some(false))
                 && (k'.timeout > k.timeout ==> k.phase.settled.None? && k.phase.timerFired)
               else
                 && k'.phase.Racing?
                 && k'.success == k.success && k'.failure == k.failure && k'.timeout == k.timeout
                 && (k'.phase.settled == k.phase.settled
                     || (k.phase.settled.None? && k'.phase.settled.Some? && e == Settle(w, k'.phase.settled.value)))
                 && (k'.phase.timerFired ==> k.phase.timerFired || e == Timer(w))
  {
  }

  lemma {:induction false} CountStays(s: State, w: nat, es: seq<Event>)
    requires w < |s.workers| && s.workers[w].inFlight && s.workers[w].phase.Counted? && Possible(s, es) && HoldsRun(es, w)
    ensures var k, t := s.workers[w], Run(s, es);
            && w < |t.workers| && t.workers[w].phase.Counted? && t.workers[w].inFlight
            && t.workers[w].success == k.success && t.workers[w].failure == k.failure && t.workers[w].timeout == k.timeout
    decreases |es|
  {
    if es != [] {
      assert es[0] != Finish(w);
      CountStays(Step(s, es[0]), w, es[1..]);
    }
  }

  /** stop() is decided once: whatever happens later, its outcome stands, and a drained
      scheduler stays without runs in flight. */
  lemma OutcomeFinal(s: State, es: seq<Event>)
    requires Invariant(s) && s.outcome.Some? && Possible(s, es)
    ensures Run(s, es).outcome == s.outcome
    ensures s.outcome == Some(Drained) ==> forall w | 0 <= w < |Run(s, es).workers| :: !Run(s, es).workers[w].inFlight
  {
    OutcomeStands(s, es);
    RunKeepsInvariant(s, es);
  }

  lemma {:induction false} OutcomeStands(s: State, es: seq<Event>)
    requires s.outcome.Some? && s.stopped && Possible(s, es)
    ensures Run(s, es).outcome == s.outcome
    decreases |es|
  {
    if es != [] {
      OutcomeStands(Step(s, es[0]), es[1..]);
    }
  }

  // ----- Synchronous throws -----

  /** t comes after a stop() in s: crashed runs are still unreleased or have been released once,
      and the awaited promises were rejected iff one was. */
  ghost predicate SinceStop(s: State, t: State) {
    && t.stopped && t.awaited == RunningSet(s) && |t.workers| == |s.workers|
    && (forall w | 0 <= w < |s.workers| && s.workers[w].phase.Crashed? ::
          && s.workers[w].running && t.workers[w].finished >= s.workers[w].finished
          && (t.workers[w].phase.Crashed? <==> t.workers[w].finished == s.workers[w].finished))
    && (forall w | 0 <= w < |s.workers| && t.workers[w].phase.Crashed? :: s.workers[w].phase.Crashed?)
    && (t.rejecting <==> exists w :: ReleasedCrash(s, t, w))
  }

  ghost predicate ReleasedCrash(s: State, t: State, w: nat) {
    w < |s.workers| == |t.workers| && s.workers[w].phase.Crashed? && t.workers[w].finished > s.workers[w].finished
  }

  lemma StepKeepsSinceStop(s: State, t: State, e: Event)
    requires SinceStop(s, t) && Enabled(t, e)
    ensures SinceStop(s, Step(t, e))
  {
    var t' := Step(t, e);
    if e.Finish? && t.workers[e.w].phase.Crashed? {
      assert ReleasedCrash(s, t', e.w);
    }
    forall w: nat | ReleasedCrash(s, t', w)
      ensures t'.rejecting
    {
      if !ReleasedCrash(s, t, w) { assert e == Finish(w); }
    }
    forall w: nat | ReleasedCrash(s, t, w)
      ensures ReleasedCrash(s, t', w)
    {
    }
  }

  lemma {:induction false} RunKeepsSinceStop(s: State, t: State, es: seq<Event>)
    requires SinceStop(s, t) && Invariant(t) && Possible(t, es)
    ensures SinceStop(s, Run(t, es))
    decreases |es|
  {
    if es != [] {
      hide SinceStop, Invariant;
      StepKeepsSinceStop(s, t, es[0]);
      StepKeepsInvariant(t, es[0]);
      RunKeepsSinceStop(s, Step(t, es[0]), es[1..]);
    }
  }

  /** What stop() awaits is rejected exactly when a run whose handler had thrown synchronously
      was still unreleased at the call and has been released since; only then can the outcome
      be Rejected. */
  lemma RejectingIff(s: State, es: seq<Event>)
    requires Reachable(s) && !s.stopped && Possible(Step(s, StopCall), es)
    ensures var t := Run(Step(s, StopCall), es);
            && (t.rejecting <==> exists w :: ReleasedCrash(s, t, w))
            && (t.outcome == Some(Rejected) ==> t.rejecting)
  {
    hide Possible, Run;
    ReachableInvariant(s);
    var t := Step(s, StopCall);
    forall w | 0 <= w < |s.workers|
      ensures s.workers[w].phase.Crashed? ==> s.workers[w].running
    {
      assert Accounted(s.workers[w]);
    }
    StepKeepsInvariant(s, StopCall);
    RunKeepsSinceStop(s, t, es);
    RunKeepsInvariant(t, es);
  }

  /** A throw just before stop(): counted under no status, and the outcome is Rejected. */
  lemma ThrowRejectsStop()
    ensures exists s: State :: Reachable(s) && s.outcome == Some(Rejected) && |s.workers| == 1
              && s.workers[0].crashed == 1 && s.workers[0].fires == 1
              && s.workers[0].success == s.workers[0].failure == s.workers[0].timeout == s.workers[0].skipped == 0
  {
    hide Possible, Run;
    var es := [Tick(0, true), StopCall, Finish(0), DrainRejected];
    var s0 := Initial(1);
    var s1 := Step(s0, es[0]);
    var s2 := Step(s1, es[1]);
    var s3 := Step(s2, es[2]);
    var s4 := Step(s3, es[3]);
    NoSteps(s4);
    assert es[3..][1..] == [] && es[2..][1..] == es[3..] && es[1..][1..] == es[2..];
    Unroll(s3, es[3..], s4);
    Unroll(s2, es[2..], s4);
    Unroll(s1, es[1..], s4);
    Unroll(s0, es, s4);
  }

  // ----- Runs always end -----

  /** Steps a run still needs at most, whatever its handler does. */
  function StepsLeft(k: Worker): nat {
    match k.phase
    case Idle => 0
    case Racing(settled, timerFired) => if settled.Some? || timerFired then 2 else 3
    case Counted => 1
    case Crashed => 1
  }

  /** The next step of a run that does not depend on its handler. */
  function NextStep(k: Worker, w: nat): Event
    requires !k.phase.Idle?
  {
    match k.phase
    case Racing(settled, timerFired) => if settled.Some? || timerFired then Resume(w) else Timer(w)
    case Counted => Finish(w)
    case Crashed => Finish(w)
  }

  lemma RunCanAdvance(s: State, w: nat)
    requires w < |s.workers| && !s.workers[w].phase.Idle?
    ensures var e := NextStep(s.workers[w], w);
            Enabled(s, e) && StepsLeft(Step(s, e).workers[w]) < StepsLeft(s.workers[w])
  {
  }

  /** Until it is released, nothing that happens adds to the steps a run in flight still needs. */
  lemma {:induction false} NeverDelayed(s: State, es: seq<Event>, w: nat)
    requires w < |s.workers| && s.workers[w].inFlight && !s.workers[w].phase.Idle? && Possible(s, es) && HoldsRun(es, w)
    ensures w < |Run(s, es).workers| && StepsLeft(Run(s, es).workers[w]) <= StepsLeft(s.workers[w])
    decreases |es|
  {
    if es != [] {
      assert es[0] != Finish(w);
      NeverDelayed(Step(s, es[0]), es[1..], w);
    }
  }

  /** From any state every run in flight can be completed in at most three steps, without
      its handler doing anything. */
  lemma {:induction false} RunCompletes(s: State, w: nat) returns (es: seq<Event>)
    requires w < |s.workers|
    ensures Possible(s, es) && |es| <= StepsLeft(s.workers[w]) <= 3 && |Run(s, es).workers| == |s.workers|
    ensures Run(s, es).workers[w].phase.Idle?
    decreases StepsLeft(s.workers[w])
  {
    if s.workers[w].phase.Idle? {
      es := [];
    } else {
      RunCanAdvance(s, w);
      var e := NextStep(s.workers[w], w);
      var rest := RunCompletes(Step(s, e), w);
      es := [e] + rest;
      assert es[1..] == rest;
    }
  }

  /** Draining concerns runs: a drained scheduler may still have a handler executing. */
  lemma DrainedWithOrphan()
    ensures exists s: State :: Reachable(s) && s.outcome == Some(Drained) && |s.workers| == 1 && s.workers[0].orphans == 1
  {
    hide Possible, Run;
    var es := [Tick(0, false), Timer(0), Resume(0), Finish(0), StopCall, DrainDone];
    var s0 := Initial(1);
    var s1 := Step(s0, es[0]);
    var s2 := Step(s1, es[1]);
    var s3 := Step(s2, es[2]);
    var s4 := Step(s3, es[3]);
    var s5 := Step(s4, es[4]);
    var s6 := Step(s5, es[5]);
    NoSteps(s6);
    assert es[5..][1..] == [] && es[4..][1..] == es[5..] && es[3..][1..] == es[4..];
    assert es[2..][1..] == es[3..] && es[1..][1..] == es[2..];
    Unroll(s5, es[5..], s6);
    Unroll(s4, es[4..], s6);
    Unroll(s3, es[3..], s6);
    Unroll(s2, es[2..], s6);
    Unroll(s1, es[1..], s6);
    Unroll(s0, es, s6);
  }

  lemma NoSteps(s: State)
    ensures Possible(s, []) && Run(s, []) == s
  {
  }

  lemma Unroll(s: State, es: seq<Event>, end: State)
    requires es != [] && Enabled(s, es[0]) && Possible(Step(s, es[0]), es[1..]) && Run(Step(s, es[0]), es[1..]) == end
    ensures Possible(s, es) && Run(s, es) == end
  {
  }
}
