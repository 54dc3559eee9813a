/** Failover under the default strategy: when a round-robin request repeats a proxy. */
module RoundRobinFailover {
  import opened Wrappers
  import opened ProxyPool
  import opened PoolRuns
  import opened Egress
  import opened Failover
  import opened FailoverRequests
  import opened Selection

  // ----- With nothing parked at the first pick, attempts go once around the ring -----

  lemma RingNext(cursor: nat, j: nat, n: nat)
    requires cursor < n && j + 1 < n
    ensures Ring((cursor + 1) % n, j, n) == Ring(cursor, j + 1, n)
  {
    ModSmall(cursor + 1, n);
    ModSmall((cursor + 1) % n + j, n);
    ModSmall(cursor + j + 1, n);
  }

  lemma RingInjective(cursor: nat, i: nat, j: nat, n: nat)
    requires cursor < n && i < j < n
    ensures Ring(cursor, i, n) != Ring(cursor, j, n)
  {
    ModSmall(cursor + i, n);
    ModSmall(cursor + j, n);
  }

  /** A healthy entry at the cursor is taken, and the cursor moves on by one. */
  lemma TakesCursor(s: State, cfg: Config, a: Attempt)
    requires cfg.strategy == RoundRobin && 0.0 <= a.r < 1.0 && s.cursor < |s.entries|
    requires Healthy(s.entries[s.cursor], a.pick)
    ensures Next(s, cfg, a.pick, a.r).1 == Some(s.cursor)
    ensures AfterAttempt(s, cfg, a, s.cursor).cursor == (s.cursor + 1) % |s.entries|
  {
    var n := |s.entries|;
    HealthyBelowComplete(s.entries, a.pick, n, s.cursor);
    ModSmall(s.cursor, n);
    ScanHits(s.entries, a.pick, s.cursor, 0, 0);
  }

  /** The next |env| entries from the cursor on are healthy at the first pick. */
  ghost predicate FreeAhead(s: State, env: seq<Attempt>) {
    env != [] ==>
      && s.cursor < |s.entries|
      && forall j | 0 <= j < |env| && j < |s.entries| :: Healthy(s.entries[Ring(s.cursor, j, |s.entries|)], env[0].pick)
  }

  lemma TimelineTail(env: seq<Attempt>)
    requires Timeline(env) && env != []
    ensures Timeline(env[1..]) && forall j | 0 <= j < |env[1..]| :: env[0].pick <= env[0].done <= env[1..][j].pick
  {
  }

  /** The attempt takes the entry at the cursor, and what lies ahead stays free. */
  lemma FreeStep(s: State, cfg: Config, env: seq<Attempt>)
    requires cfg.strategy == RoundRobin && cfg.threshold <= 1 && DistinctIds(s) && s.entries != []
    requires Drawable(env) && AllButLastFail(env) && Timeline(env) && |env| <= |s.entries| && FreeAhead(s, env)
    requires env != []
    ensures s.cursor < |s.entries| && Next(s, cfg, env[0].pick, env[0].r).1 == Some(s.cursor)
    ensures env[1..] != [] ==>
              var s' := AfterAttempt(s, cfg, env[0], s.cursor);
              && DistinctIds(s') && |s'.entries| == |s.entries| && FreeAhead(s', env[1..])
              && s'.cursor == (s.cursor + 1) % |s.entries|
  {
    hide Next, AfterAttempt, DistinctIds, OutcomeOf, IsFailure, AllButLastFail, Drawable, Ring, Timeline;
    var a, rest, n := env[0], env[1..], |s.entries|;
    RequestTail(env);
    TimelineTail(env);
    RingStart(s.cursor, n);
    assert Healthy(s.entries[Ring(s.cursor, 0, n)], a.pick);
    TakesCursor(s, cfg, a);
    if rest != [] {
      AttemptParks(s, cfg, a, s.cursor);
      var s' := AfterAttempt(s, cfg, a, s.cursor);
      forall j | 0 <= j < |rest|
        ensures Healthy(s'.entries[Ring(s'.cursor, j, n)], rest[0].pick)
      {
        RingNext(s.cursor, j, n);
        RingInjective(s.cursor, 0, j + 1, n);
        assert Healthy(s.entries[Ring(s.cursor, j + 1, n)], a.pick);
      }
    }
  }

  lemma {:induction false} RingPicks(s: State, cfg: Config, env: seq<Attempt>)
    requires cfg.strategy == RoundRobin && cfg.threshold <= 1 && DistinctIds(s) && s.entries != []
    requires Drawable(env) && AllButLastFail(env) && Timeline(env) && |env| <= |s.entries| && FreeAhead(s, env)
    ensures forall j | 0 <= j < |env| :: Picks(s, cfg, env)[j] == Ring(s.cursor, j, |s.entries|)
    decreases |env|
  {
    if env != [] {
      hide Next, AfterAttempt, Picks, DistinctIds, AllButLastFail, Drawable, Ring, FreeAhead, Timeline;
      var rest, n := env[1..], |s.entries|;
      RequestTail(env);
      TimelineTail(env);
      FreeStep(s, cfg, env);
      var i, s' := PicksStep(s, cfg, env);
      if rest != [] { RingPicks(s', cfg, rest); }
      RingCons(s.cursor, n, Picks(s', cfg, rest));
    }
  }

  lemma RingCons(cursor: nat, n: nat, p: seq<nat>)
    requires cursor < n && |p| < n && forall j | 0 <= j < |p| :: p[j] == Ring((cursor + 1) % n, j, n)
    ensures forall j | 0 <= j <= |p| :: ([cursor] + p)[j] == Ring(cursor, j, n)
  {
    hide Ring;
    RingStart(cursor, n);
    forall j | 0 < j <= |p|
      ensures p[j - 1] == Ring(cursor, j, n)
    {
      RingNext(cursor, j - 1, n);
    }
  }

  lemma RingStart(cursor: nat, n: nat)
    requires cursor < n
    ensures Ring(cursor, 0, n) == cursor
  {
    ModSmall(cursor, n);
  }

  /** However long the request lasts. */
  lemma FreePoolDistinct(s: State, cfg: Config, env: seq<Attempt>)
    requires cfg.strategy == RoundRobin && cfg.threshold <= 1 && DistinctIds(s) && s.entries != []
    requires Drawable(env) && AllButLastFail(env) && Timeline(env) && |env| <= |s.entries| && FreeAhead(s, env)
    ensures Distinct(Picks(s, cfg, env))
  {
    hide Picks, Ring;
    RingPicks(s, cfg, env);
    forall i, j | 0 <= i < j < |env|
      ensures Picks(s, cfg, env)[i] != Picks(s, cfg, env)[j]
    {
      RingInjective(s.cursor, i, j, |s.entries|);
    }
  }

  /** Enough that every earlier cooldown has run out by then. */
  lemma PriorCooldownOver(s: State, cfg: Config, env: seq<Attempt>, prior: int)
    requires cfg.strategy == RoundRobin && Admissible(s, cfg, prior) && s.entries != []
    requires Drawable(env) && AllButLastFail(env) && Timeline(env) && 0 < |env| <= |s.entries|
    requires prior + cfg.cooldown <= env[0].pick
    ensures Distinct(Picks(s, cfg, env))
  {
    hide Picks, Distinct;
    forall j | 0 <= j < |s.entries|
      ensures Healthy(s.entries[j], env[0].pick)
    {
      assert Booked(s.entries[j], cfg);
    }
    FreePoolDistinct(s, cfg, env);
  }

  // ----- A way back to the first proxy -----

  /** How many attempts but the last are picked at or after u. */
  function Late(env: seq<Attempt>, u: int): (n: nat)
    ensures env != [] ==> n < |env|
  {
    if |env| <= 1 then 0 else (if env[0].pick >= u then 1 else 0) + Late(env[1..], u)
  }

  /** Entry 0 has failed and is free by the last pick. Until u the fallback works its way up from
      entry k; from u on the cursor has just as many free entries ahead as attempts are left
      before the last, which then wraps around to entry 0. */
  ghost predicate HeadsBack(s: State, env: seq<Attempt>, k: nat, u: int, cooldown: int) {
    && env != [] && 1 <= k && k + |env| - 1 <= |s.entries|
    && s.cursor == (|s.entries| - Late(env, u)) % |s.entries|
    && (forall i | |s.entries| - Late(env, u) <= i < |s.entries| :: s.entries[i].cooldownUntil == Some(u))
    && (env[0].pick < u ==>
          && (forall i | 0 <= i < k :: s.entries[i].cooldownUntil.Some? && s.entries[i].cooldownUntil.value > u)
          && (forall i | k <= i < |s.entries| :: s.entries[i].cooldownUntil == Some(u)))
    && s.entries[0].cooldownUntil.Some? && s.entries[0].cooldownUntil.value <= env[|env| - 1].pick
    && (forall i | 0 <= i < |env| :: env[i].done + cooldown > u)
  }

  lemma {:induction false} BackToZero(s: State, cfg: Config, env: seq<Attempt>, k: nat, u: int)
    requires cfg.strategy == RoundRobin && cfg.threshold == 1 && DistinctIds(s)
    requires Drawable(env) && AllButLastFail(env) && Timeline(env) && HeadsBack(s, env, k, u, cfg.cooldown)
    ensures s.entries != [] && 0 in Picks(s, cfg, env)
    decreases |env|
  {
    hide Next, AfterAttempt, Picks, DistinctIds, AllButLastFail, Drawable, HeadsBack, Timeline;
    HeadsSomewhere(s, env, k, u, cfg.cooldown);
    RequestTail(env);
    TimelineTail(env);
    if |env| == 1 {
      LastWraps(s, cfg, env, k, u);
      var i, s' := PicksStep(s, cfg, env);
      assert Picks(s, cfg, env)[0] == 0;
    } else {
      if env[0].pick < u { FallsBack(s, cfg, env, k, u); } else { GoesAhead(s, cfg, env, k, u); }
      var i, s' := PicksStep(s, cfg, env);
      BackToZero(s', cfg, env[1..], k + 1, u);
      InTail(i, Picks(s', cfg, env[1..]));
    }
  }

  lemma HeadsSomewhere(s: State, env: seq<Attempt>, k: nat, u: int, cooldown: int)
    requires HeadsBack(s, env, k, u, cooldown)
    ensures env != [] && s.entries != []
  {
  }

  lemma InTail(i: nat, p: seq<nat>)
    requires 0 in p
    ensures 0 in [i] + p
  {
  }

  lemma LastWraps(s: State, cfg: Config, env: seq<Attempt>, k: nat, u: int)
    requires cfg.strategy == RoundRobin && Drawable(env) && HeadsBack(s, env, k, u, cfg.cooldown) && |env| == 1
    ensures Next(s, cfg, env[0].pick, env[0].r).1 == Some(0)
  {
    hide Next, AfterAttempt;
    var n := |s.entries|;
    WrapAround(n);
    assert s.cursor == 0;
    TakesCursor(s, cfg, env[0]);
  }

  lemma WrapAround(n: nat)
    requires n > 0
    ensures n % n == 0
  {
    ModSmall(n, n);
  }

  /** All are parked and k is the first with the earliest deadline. */
  lemma FallsBack(s: State, cfg: Config, env: seq<Attempt>, k: nat, u: int)
    requires cfg.strategy == RoundRobin && cfg.threshold == 1 && DistinctIds(s)
    requires Drawable(env) && AllButLastFail(env) && Timeline(env) && HeadsBack(s, env, k, u, cfg.cooldown)
    requires |env| >= 2 && env[0].pick < u
    ensures Next(s, cfg, env[0].pick, env[0].r).1 == Some(k) && k < |s.entries|
    ensures var s' := AfterAttempt(s, cfg, env[0], k);
            DistinctIds(s') && HeadsBack(s', env[1..], k + 1, u, cfg.cooldown)
  {
    hide Next, AfterAttempt, DistinctIds, AllButLastFail, Drawable, IsFailure, OutcomeOf;
    var a, rest, n := env[0], env[1..], |s.entries|;
    RequestTail(env);
    assert Late(env, u) == Late(rest, u) && rest[|rest| - 1] == env[|env| - 1];
    FallbackTakes(s, cfg, a, k, u);
    AttemptParks(s, cfg, a, k);
  }

  lemma FallbackTakes(s: State, cfg: Config, a: Attempt, k: nat, u: int)
    requires 0.0 <= a.r < 1.0 && k < |s.entries| && a.pick < u
    requires forall i | 0 <= i < k :: s.entries[i].cooldownUntil.Some? && s.entries[i].cooldownUntil.value > u
    requires forall i | k <= i < |s.entries| :: s.entries[i].cooldownUntil == Some(u)
    ensures Next(s, cfg, a.pick, a.r).1 == Some(k) && AfterAttempt(s, cfg, a, k).cursor == s.cursor
  {
    FallbackIgnoresDraw(s, cfg, a.pick, a.r);
    hide Next, FindId;
    var b := Earliest(s.entries, |s.entries|);
    assert Deadline(s.entries[b]) <= Deadline(s.entries[k]);
  }

  /** The entry at the cursor is free; it is taken and the cursor moves on. */
  lemma GoesAhead(s: State, cfg: Config, env: seq<Attempt>, k: nat, u: int)
    requires cfg.strategy == RoundRobin && cfg.threshold == 1 && DistinctIds(s)
    requires Drawable(env) && AllButLastFail(env) && Timeline(env) && HeadsBack(s, env, k, u, cfg.cooldown)
    requires |env| >= 2 && env[0].pick >= u
    ensures Next(s, cfg, env[0].pick, env[0].r).1 == Some(s.cursor) && s.cursor < |s.entries|
    ensures var s' := AfterAttempt(s, cfg, env[0], s.cursor);
            DistinctIds(s') && HeadsBack(s', env[1..], k + 1, u, cfg.cooldown)
  {
    hide Next, AfterAttempt, DistinctIds, AllButLastFail, Drawable, IsFailure, OutcomeOf;
    var a, rest, n := env[0], env[1..], |s.entries|;
    RequestTail(env);
    TimelineTail(env);
    assert Late(env, u) == 1 + Late(rest, u) && rest[|rest| - 1] == env[|env| - 1];
    ModSmall(n - Late(env, u), n);
    assert 1 <= s.cursor == n - Late(env, u);
    TakesCursor(s, cfg, a);
    AttemptParks(s, cfg, a, s.cursor);
  }

  /** A round-robin request that starts while earlier failures are still parked and outlasts its
      first cooldown can return to the proxy it failed on first. */
  lemma RoundRobinRepeats(times: seq<Attempt>, prior: int, cooldown: int, n: nat) returns (s: State)
    requires 2 <= |times| <= n && Timeline(times) && prior < times[0].done && times[0].pick < prior + cooldown
    requires times[|times| - 1].pick >= times[0].done + cooldown
    ensures exists c: nat :: c < n && s == Uniform(n, Some(prior), cooldown).(cursor := c)
    ensures Repeats(s, Config(RoundRobin, cooldown, 1), Scripted(times), times, prior, cooldown, n, RoundRobin)
  {
    hide Next, AfterAttempt, HeadsBack, IsFailure, OutcomeOf;
    var cfg, env, u := Config(RoundRobin, cooldown, 1), Scripted(times), prior + cooldown;
    var rest := env[1..];
    var c := (n - Late(rest, u)) % n;
    s := Uniform(n, Some(prior), cooldown).(cursor := c);
    FallbackTakes(s, cfg, env[0], 0, u);
    var i, s' := PicksStep(s, cfg, env);
    AttemptParks(s, cfg, env[0], 0);
    ScriptedTimeline(times);
    TimelineTail(env);
    StartsBack(s, s', env, u, cooldown);
    BackToZero(s', cfg, rest, 1, u);
    var p := Picks(s', cfg, rest);
    var k :| 0 <= k < |p| && p[k] == 0;
    assert ([0] + p)[0] == ([0] + p)[k + 1];
    assert Admissible(s, cfg, prior);
  }

  lemma ScriptedTimeline(times: seq<Attempt>)
    requires Timeline(times)
    ensures Timeline(Scripted(times))
  {
  }

  lemma StartsBack(s: State, s': State, env: seq<Attempt>, u: int, cooldown: int)
    requires |env| >= 2 && |env| <= |s.entries| == |s'.entries| && Timeline(env)
    requires s'.cursor == (|s.entries| - Late(env[1..], u)) % |s.entries|
    requires s'.entries[0].cooldownUntil == Some(env[0].done + cooldown) && u < env[0].done + cooldown
    requires forall i | 0 < i < |s.entries| :: s'.entries[i].cooldownUntil == Some(u)
    requires env[|env| - 1].pick >= env[0].done + cooldown
    ensures HeadsBack(s', env[1..], 1, u, cooldown)
  {
    TimelineTail(env);
    var rest := env[1..];
    assert rest[|rest| - 1] == env[|env| - 1];
    assert forall i | 0 <= i < |rest| :: rest[i].pick <= rest[i].done;
  }
}
