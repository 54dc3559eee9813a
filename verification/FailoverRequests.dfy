/** Requests with given clock readings, and the reachable pools and scripts that serve as
    counterexamples. */
module FailoverRequests {
  import opened Wrappers
  import opened ProxyPool
  import opened PoolRuns
  import opened Egress
  import opened Failover

  ghost predicate SameTimes(env: seq<Attempt>, times: seq<Attempt>) {
    |env| == |times| && forall k | 0 <= k < |env| :: env[k].pick == times[k].pick && env[k].done == times[k].done
  }

  /** A request with the given clock readings on a pool of n entries. */
  ghost predicate Request(s: State, cfg: Config, env: seq<Attempt>, times: seq<Attempt>, prior: int,
                          cooldown: int, n: nat, strategy: Strategy) {
    && Admissible(s, cfg, prior) && |s.entries| == n > 0 && cfg.cooldown == cooldown && cfg.strategy == strategy
    && Drawable(env) && AllButLastFail(env) && SameTimes(env, times)
  }

  ghost predicate Repeats(s: State, cfg: Config, env: seq<Attempt>, times: seq<Attempt>, prior: int,
                          cooldown: int, n: nat, strategy: Strategy) {
    Request(s, cfg, env, times, prior, cooldown, n, strategy) && !Distinct(Picks(s, cfg, env))
  }

  const Refused: Reply := Threw(FetchError(false, None, None, Some("ECONNREFUSED")))

  /** Same clock readings, always drawing zero and always refused. */
  function Scripted(times: seq<Attempt>): (env: seq<Attempt>)
    ensures Drawable(env) && SameTimes(env, times) && AllFail(env)
    ensures forall k | 0 <= k < |env| :: env[k].r == 0.0
  {
    assert IsFailure(OutcomeOf(Attempt(0, 0.0, 0, Refused)));
    seq(|times|, k requires 0 <= k < |times| => Attempt(times[k].pick, 0.0, times[k].done, Refused))
  }

  function Name(i: nat): (s: string)
    ensures |s| == i
  {
    seq(i, _ => 'p')
  }

  function Uniform(n: nat, failedAt: Option<int>, cooldown: int): (s: State)
    ensures |s.entries| == n && DistinctIds(s)
  {
    var es := seq(n, i requires 0 <= i < n =>
      if failedAt.None? then Entry(Name(i), None, None, 0)
      else Entry(Name(i), failedAt, Some(failedAt.value + cooldown), 1));
    assert forall i | 0 <= i < n :: |es[i].id| == i;
    State(es, 0)
  }

  // ----- These pools are reachable, with the cursor anywhere -----

  /** The first k entries reported failed once at the given time. */
  function PartlyFailed(n: nat, k: nat, t: int, cooldown: int, cursor: nat): (s: State)
    ensures |s.entries| == n && s.cursor == cursor
  {
    State(seq(n, i requires 0 <= i < n =>
      if i < k then Entry(Name(i), Some(t), Some(t + cooldown), 1) else Entry(Name(i), None, None, 0)), cursor)
  }

  function Names(n: nat): seq<string> {
    seq(n, i requires 0 <= i => Name(i))
  }

  function FailureReports(n: nat, t: int): (evs: seq<Event>)
    ensures |evs| == n && WellFormedRun(evs)
  {
    seq(n, i requires 0 <= i => ReportCall(Name(i), ConnectFailure, t))
  }

  lemma {:induction false} ReportsReach(n: nat, k: nat, t: int, cfg: Config, c: nat)
    requires k <= n && cfg.threshold == 1
    ensures Run(PartlyFailed(n, k, t, cfg.cooldown, c), cfg, FailureReports(n, t)[k..]) == PartlyFailed(n, n, t, cfg.cooldown, c)
    decreases n - k
  {
    var evs, s := FailureReports(n, t)[k..], PartlyFailed(n, k, t, cfg.cooldown, c);
    if k < n {
      assert evs[0] == ReportCall(Name(k), ConnectFailure, t) && evs[1..] == FailureReports(n, t)[k + 1..];
      ReportNext(n, k, t, cfg, c);
      ReportsReach(n, k + 1, t, cfg, c);
    }
  }

  lemma ReportNext(n: nat, k: nat, t: int, cfg: Config, c: nat)
    requires k < n && cfg.threshold == 1
    ensures Report(PartlyFailed(n, k, t, cfg.cooldown, c), cfg, Name(k), ConnectFailure, t)
         == PartlyFailed(n, k + 1, t, cfg.cooldown, c)
  {
    var s := PartlyFailed(n, k, t, cfg.cooldown, c);
    assert forall i | 0 <= i < n :: |s.entries[i].id| == i;
    var r := FindId(s.entries, Name(k));
    assert s.entries[k].id == Name(k);
    assert r == Some(k);
  }

  /** c calls of next(), then n failure reports, all at time t. */
  function CallsThenReports(n: nat, c: nat, t: int): (evs: seq<Event>)
    ensures |evs| == c + n && WellFormedRun(evs)
  {
    seq(c, i requires 0 <= i => NextCall(t, 0.0)) + FailureReports(n, t)
  }

  lemma {:induction false} CallsReach(n: nat, i: nat, c: nat, t: int, cfg: Config)
    requires cfg.strategy == RoundRobin && cfg.threshold == 1 && i <= c < n
    ensures Run(PartlyFailed(n, 0, t, cfg.cooldown, i), cfg, CallsThenReports(n, c - i, t))
         == PartlyFailed(n, n, t, cfg.cooldown, c)
    decreases c - i
  {
    var evs, s := CallsThenReports(n, c - i, t), PartlyFailed(n, 0, t, cfg.cooldown, i);
    if i == c {
      assert evs == FailureReports(n, t) == FailureReports(n, t)[0..];
      ReportsReach(n, 0, t, cfg, c);
    } else {
      assert evs[0] == NextCall(t, 0.0) && evs[1..] == CallsThenReports(n, c - i - 1, t);
      FreshNext(n, i, t, cfg);
      CallsReach(n, i + 1, c, t, cfg);
    }
  }

  lemma FreshNext(n: nat, i: nat, t: int, cfg: Config)
    requires cfg.strategy == RoundRobin && i + 1 < n
    ensures Next(PartlyFailed(n, 0, t, cfg.cooldown, i), cfg, t, 0.0).0 == PartlyFailed(n, 0, t, cfg.cooldown, i + 1)
  {
    var s := PartlyFailed(n, 0, t, cfg.cooldown, i);
    HealthyBelowComplete(s.entries, t, n, i);
    ModSmall(i, n);
    ModSmall(i + 1, n);
    assert Scan(s.entries, t, i, 0) == i;
  }

  /** A fresh pool is the healthy counterexample; n failure reports at one time lead from it to the
      parked one, and calls before them put a round-robin cursor anywhere. */
  lemma UniformReachable(n: nat, t: int, cfg: Config, c: nat)
    requires cfg.threshold == 1 && (c == 0 || (cfg.strategy == RoundRobin && c < n))
    ensures Fresh(Names(n)) == Uniform(n, None, cfg.cooldown)
    ensures Run(Fresh(Names(n)), cfg, CallsThenReports(n, c, t)) == Uniform(n, Some(t), cfg.cooldown).(cursor := c)
  {
    assert Fresh(Names(n)) == PartlyFailed(n, 0, t, cfg.cooldown, 0);
    assert PartlyFailed(n, n, t, cfg.cooldown, c).entries == Uniform(n, Some(t), cfg.cooldown).entries;
    if c == 0 {
      assert CallsThenReports(n, 0, t) == FailureReports(n, t) == FailureReports(n, t)[0..];
      ReportsReach(n, 0, t, cfg, 0);
    } else {
      CallsReach(n, 0, c, t, cfg);
    }
  }
}
