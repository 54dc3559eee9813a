/** What holds on every run of the pool: bookkeeping of cooldowns and bounded waiting. */
module PoolRuns {
  import opened Wrappers
  import opened ProxyPool

  datatype Event =
    | NextCall(t: int, r: real)
    | ReportCall(id: string, outcome: Outcome, t: int)

  predicate WellFormedEvent(e: Event) {
    e.NextCall? ==> 0.0 <= e.r < 1.0
  }

  function Step(s: State, cfg: Config, e: Event): State
    requires WellFormedEvent(e)
  {
    match e
    case NextCall(t, r) => Next(s, cfg, t, r).0
    case ReportCall(id, o, t) => Report(s, cfg, id, o, t)
  }

  predicate WellFormedRun(evs: seq<Event>) {
    forall i | 0 <= i < |evs| :: WellFormedEvent(evs[i])
  }

  /** The state after the first events. */
  function Run(s: State, cfg: Config, evs: seq<Event>): State
    requires WellFormedRun(evs)
    decreases |evs|
  {
    if evs == [] then s else Run(Step(s, cfg, evs[0]), cfg, evs[1..])
  }

  // ----- Bookkeeping -----

  /** An entry is parked iff it has failed often enough in a row, and then until exactly one
      cooldown after its last failure. */
  predicate Booked(e: Entry, cfg: Config) {
    && (e.cooldownUntil.Some? <==> e.failures >= cfg.threshold)
    && (e.cooldownUntil.Some? ==> e.lastFailureAt.Some? && e.cooldownUntil.value == e.lastFailureAt.value + cfg.cooldown)
  }

  ghost predicate AllBooked(s: State, cfg: Config) {
    CursorInRange(s) && forall i | 0 <= i < |s.entries| :: Booked(s.entries[i], cfg)
  }

  lemma StepKeepsBooked(s: State, cfg: Config, e: Event)
    requires AllBooked(s, cfg) && cfg.threshold >= 1 && WellFormedEvent(e)
    ensures AllBooked(Step(s, cfg, e), cfg) && |Step(s, cfg, e).entries| == |s.entries|
  {
    hide HealthyBelow, Scan, Earliest;
  }

  lemma {:induction false} RunKeepsBooked(s: State, cfg: Config, evs: seq<Event>)
    requires AllBooked(s, cfg) && cfg.threshold >= 1 && WellFormedRun(evs)
    ensures AllBooked(Run(s, cfg, evs), cfg)
    decreases |evs|
  {
    if evs != [] {
      StepKeepsBooked(s, cfg, evs[0]);
      RunKeepsBooked(Step(s, cfg, evs[0]), cfg, evs[1..]);
    }
  }

  /** The bookkeeping holds on every run exactly when the threshold is at least one (or the
      pool is empty): a threshold of zero already fails on a fresh pool. */
  lemma BookedOnAllRunsIff(ids: seq<string>, cfg: Config)
    ensures (forall evs: seq<Event> | WellFormedRun(evs) :: AllBooked(Run(Fresh(ids), cfg, evs), cfg))
       <==> cfg.threshold >= 1 || ids == []
  {
    if cfg.threshold >= 1 {
      forall evs: seq<Event> | WellFormedRun(evs)
        ensures AllBooked(Run(Fresh(ids), cfg, evs), cfg)
      {
        RunKeepsBooked(Fresh(ids), cfg, evs);
      }
    } else if ids == [] {
      forall evs: seq<Event> | WellFormedRun(evs)
        ensures AllBooked(Run(Fresh(ids), cfg, evs), cfg)
      {
        EmptyStaysEmpty(Fresh(ids), cfg, evs);
      }
    } else {
      assert Run(Fresh(ids), cfg, []) == Fresh(ids);
      assert !Booked(Fresh(ids).entries[0], cfg);
    }
  }

  lemma {:induction false} EmptyStaysEmpty(s: State, cfg: Config, evs: seq<Event>)
    requires s == State([], 0) && WellFormedRun(evs)
    ensures Run(s, cfg, evs) == s
    decreases |evs|
  {
    if evs != [] {
      EmptyStaysEmpty(Step(s, cfg, evs[0]), cfg, evs[1..]);
    }
  }

  // ----- Bounded waiting -----

  /** The indices next() returned, in order. */
  function Chosen(s: State, cfg: Config, evs: seq<Event>): seq<nat>
    requires WellFormedRun(evs)
    decreases |evs|
  {
    if evs == [] then []
    else
      var rest := Chosen(Step(s, cfg, evs[0]), cfg, evs[1..]);
      if evs[0].NextCall? && Next(s, cfg, evs[0].t, evs[0].r).1.Some?
      then [Next(s, cfg, evs[0].t, evs[0].r).1.value] + rest else rest
  }

  function NextCalls(evs: seq<Event>): nat {
    if evs == [] then 0 else (if evs[0].NextCall? then 1 else 0) + NextCalls(evs[1..])
  }

  /** Entry i is out of cooldown at every next() call of the run. */
  ghost predicate HealthyThroughout(s: State, cfg: Config, evs: seq<Event>, i: nat)
    requires WellFormedRun(evs)
    decreases |evs|
  {
    evs == [] ||
    (&& i < |s.entries| && (evs[0].NextCall? ==> Healthy(s.entries[i], evs[0].t))
     && HealthyThroughout(Step(s, cfg, evs[0]), cfg, evs[1..], i))
  }

  function Distance(cursor: nat, i: nat, n: nat): nat
    requires cursor < n && i < n
  {
    if i >= cursor then i - cursor else i + n - cursor
  }

  /** The scan stops at a healthy entry no later than at i, and the cursor moves past it. */
  lemma {:induction false} ScanReaches(es: seq<Entry>, t: int, cursor: nat, i: nat, off: nat)
    requires cursor < |es| && i < |es| && Healthy(es[i], t) && off <= Distance(cursor, i, |es|)
    ensures var n := |es|; var c := Scan(es, t, cursor, off);
            c < n && off <= Distance(cursor, c, n) <= Distance(cursor, i, n)
    decreases |es| - off
  {
    var n := |es|;
    var k := StepsTo(cursor, i, n);
    ModSmall(cursor + off, n);
    var c := Ring(cursor, off, n);
    if !Healthy(es[c], t) {
      assert off < k;
      ScanReaches(es, t, cursor, i, off + 1);
    }
  }

  lemma AfterPick(cursor: nat, c: nat, i: nat, n: nat)
    requires cursor < n && c < n && i < n && c != i && Distance(cursor, c, n) <= Distance(cursor, i, n)
    ensures (c + 1) % n < n && Distance((c + 1) % n, i, n) < Distance(cursor, i, n)
  {
    ModSmall(c + 1, n);
  }

  lemma HealthyNonEmpty(es: seq<Entry>, t: int, i: nat)
    requires i < |es| && Healthy(es[i], t)
    ensures HealthyBelow(es, t, |es|) != []
  {
    HealthyBelowComplete(es, t, |es|, i);
  }

  /** A healthy entry is chosen after at most its distance from the cursor further calls. */
  lemma {:induction false} ChosenWithinDistance(s: State, cfg: Config, evs: seq<Event>, i: nat)
    requires cfg.strategy == RoundRobin && WellFormedRun(evs) && s.cursor < |s.entries| && i < |s.entries|
    requires HealthyThroughout(s, cfg, evs, i)
    requires NextCalls(evs) > Distance(s.cursor, i, |s.entries|)
    ensures i in Chosen(s, cfg, evs)
    decreases |evs|
  {
    var e, n := evs[0], |s.entries|;
    var s' := Step(s, cfg, e);
    if e.NextCall? {
      hide HealthyBelow, Scan;
      HealthyNonEmpty(s.entries, e.t, i);
      ScanReaches(s.entries, e.t, s.cursor, i, 0);
      var c := Scan(s.entries, e.t, s.cursor, 0);
      assert Next(s, cfg, e.t, e.r) == (s.(cursor := (c + 1) % n), Some(c));
      if c != i {
        AfterPick(s.cursor, c, i, n);
        ChosenWithinDistance(s', cfg, evs[1..], i);
      }
    } else {
      ChosenWithinDistance(s', cfg, evs[1..], i);
    }
  }

  /** Round robin never makes a healthy proxy wait longer than one full round, whatever is
      reported about the others meanwhile. */
  lemma BoundedWaiting(s: State, cfg: Config, evs: seq<Event>, i: nat)
    requires cfg.strategy == RoundRobin && WellFormedRun(evs) && CursorInRange(s) && i < |s.entries|
    requires HealthyThroughout(s, cfg, evs, i) && NextCalls(evs) >= |s.entries|
    ensures i in Chosen(s, cfg, evs)
  {
    ChosenWithinDistance(s, cfg, evs, i);
  }
}
