/** The exact limits of two documented promises of the pool: that the retry budget tries the
    whole set, and that the random strategy falls back to a uniform draw. */
module FailoverLimits {
  import opened Wrappers
  import opened ProxyPool
  import opened PoolRuns
  import opened Egress
  import opened Failover
  import opened FailoverRequests
  import opened Selection
  import opened RoundRobinFailover

  // ----- Requests that repeat a proxy -----

  /** With equal deadlines, or all healthy under a zero draw or a cursor at zero, index 0 is
      taken. */
  lemma TakesZero(s: State, cfg: Config, t: int)
    requires s.entries != [] && (cfg.strategy == Random || s.cursor == 0)
    requires Healthy(s.entries[0], t) ||
             forall j | 0 <= j < |s.entries| :: !Healthy(s.entries[j], t) && Deadline(s.entries[0]) <= Deadline(s.entries[j])
    ensures Next(s, cfg, t, 0.0).1 == Some(0)
  {
    var n := |s.entries|;
    if Healthy(s.entries[0], t) {
      HealthyBelowFirst(s.entries, t, n);
      assert (0.0 * |HealthyBelow(s.entries, t, n)| as real).Floor == 0;
      if s.cursor == 0 { ScanHits(s.entries, t, 0, 0, 0); }
    } else {
      NoneHealthy(s.entries, t, n);
    }
  }

  /** A failure in the same millisecond as an earlier one: under either strategy the fallback
      picks the same proxy twice. */
  lemma SameMillisecondRepeats(times: seq<Attempt>, prior: int, cooldown: int, n: nat, strategy: Strategy)
    requires |times| >= 2 && n > 0 && cooldown > 0 && Timeline(times)
    requires times[0].pick == times[0].done == prior
    ensures Repeats(Uniform(n, Some(prior), cooldown), Config(strategy, cooldown, 1), Scripted(times), times, prior,
                    cooldown, n, strategy)
  {
    var cfg, s, env := Config(strategy, cooldown, 1), Uniform(n, Some(prior), cooldown), Scripted(times);
    hide Next, AfterAttempt;
    FallbackTakes(s, cfg, env[0], 0, prior + cooldown);
    AttemptParks(s, cfg, env[0], 0);
    var i, s' := PicksStep(s, cfg, env);
    var rest := env[1..];
    NextInRange(s', cfg, rest[0].pick, 0.0);
    TakesZero(s', cfg, rest[0].pick);
    var p := Picks(s', cfg, rest);
    assert Picks(s, cfg, env) == [0] + p && p[0] == 0;
    assert ([0] + p)[0] == ([0] + p)[1];
  }

  /** Entry 0 is free again by the last pick, so a zero draw returns to it. */
  lemma {:induction false} ZeroPickedAgain(s: State, cfg: Config, env: seq<Attempt>)
    requires Drawable(env) && AllFail(env) && env != [] && s.entries != [] && DistinctIds(s)
    requires cfg.strategy == Random && cfg.threshold == 1
    requires forall k | 0 <= k < |env| :: env[k].r == 0.0
    requires Healthy(s.entries[0], env[|env| - 1].pick)
    ensures 0 in Picks(s, cfg, env)
    decreases |env|
  {
    hide Next, AfterAttempt;
    var a, rest := env[0], env[1..];
    NextInRange(s, cfg, a.pick, a.r);
    var i := Next(s, cfg, a.pick, a.r).1.value;
    if |env| == 1 {
      TakesZero(s, cfg, a.pick);
    } else if i != 0 {
      AttemptParks(s, cfg, a, i);
      ZeroPickedAgain(AfterAttempt(s, cfg, a, i), cfg, rest);
    }
  }

  /** The random strategy on a fresh pool: drawing zero returns to the first proxy once it is
      free again. */
  lemma OutlastingCooldownRepeats(times: seq<Attempt>, prior: int, cooldown: int, n: nat)
    requires |times| >= 2 && n > 0 && Timeline(times)
    requires times[|times| - 1].pick >= times[0].done + cooldown
    ensures Repeats(Uniform(n, None, cooldown), Config(Random, cooldown, 1), Scripted(times), times, prior, cooldown,
                    n, Random)
  {
    var cfg, s, env := Config(Random, cooldown, 1), Uniform(n, None, cooldown), Scripted(times);
    hide Next;
    NextInRange(s, cfg, env[0].pick, 0.0);
    TakesZero(s, cfg, env[0].pick);
    AttemptParks(s, cfg, env[0], 0);
    var s' := AfterAttempt(s, cfg, env[0], 0);
    var rest := env[1..];
    ZeroPickedAgain(s', cfg, rest);
    var p := Picks(s', cfg, rest);
    assert Picks(s, cfg, env) == [0] + p;
    var k :| 0 <= k < |p| && p[k] == 0;
    assert ([0] + p)[0] == ([0] + p)[k + 1];
  }

  // ----- Exactly when no request repeats a proxy -----

  /** The condition on the clock readings. Round robin has a second way to meet it: when every
      earlier failure has left its cooldown by the first pick, however long the request lasts. */
  ghost predicate NeverRepeats(strategy: Strategy, times: seq<Attempt>, prior: int, cooldown: int) {
    || WithinCooldown(times, prior, cooldown)
    || (strategy == RoundRobin && times != [] && prior + cooldown <= times[0].pick)
  }

  /** For given clock readings and strategy: no pool, draw or outcome of the last attempt ever
      repeats a proxy iff the condition holds. */
  lemma NoProxyTwiceIff(times: seq<Attempt>, prior: int, cooldown: int, n: nat, strategy: Strategy)
    requires 0 < n && |times| <= n && Timeline(times)
    requires times != [] ==> prior <= times[0].pick
    ensures (forall s: State, cfg: Config, env: seq<Attempt> :: !Repeats(s, cfg, env, times, prior, cooldown, n, strategy))
       <==> NeverRepeats(strategy, times, prior, cooldown)
  {
    hide Request, Distinct, Picks, NeverRepeats;
    if NeverRepeats(strategy, times, prior, cooldown) {
      forall s: State, cfg: Config, env: seq<Attempt>
        ensures !Repeats(s, cfg, env, times, prior, cooldown, n, strategy)
      {
        if Request(s, cfg, env, times, prior, cooldown, n, strategy) {
          RequestDistinct(s, cfg, env, times, prior, cooldown, n, strategy);
        }
      }
    } else {
      var s, cfg := SomeRepeat(times, prior, cooldown, n, strategy);
    }
  }

  lemma RequestDistinct(s: State, cfg: Config, env: seq<Attempt>, times: seq<Attempt>, prior: int, cooldown: int, n: nat,
                        strategy: Strategy)
    requires |times| <= n && Timeline(times) && NeverRepeats(strategy, times, prior, cooldown)
    requires Request(s, cfg, env, times, prior, cooldown, n, strategy)
    ensures Drawable(env) && s.entries != [] && Distinct(Picks(s, cfg, env))
  {
    hide Distinct, Picks, AllBooked, DistinctIds, AllButLastFail;
    assert Timeline(env);
    if WithinCooldown(times, prior, cooldown) {
      AttemptsDistinct(s, cfg, env, prior);
    } else {
      PriorCooldownOver(s, cfg, env, prior);
    }
  }

  lemma SomeRepeat(times: seq<Attempt>, prior: int, cooldown: int, n: nat, strategy: Strategy) returns (s: State, cfg: Config)
    requires 0 < n && |times| <= n && Timeline(times) && (times != [] ==> prior <= times[0].pick)
    requires !NeverRepeats(strategy, times, prior, cooldown)
    ensures Repeats(s, cfg, Scripted(times), times, prior, cooldown, n, strategy)
  {
    hide Repeats;
    cfg := Config(strategy, cooldown, 1);
    assert |times| >= 2 && prior <= times[0].pick <= times[0].done <= times[|times| - 1].pick;
    if prior < times[0].done && strategy == RoundRobin {
      s := RoundRobinRepeats(times, prior, cooldown, n);
    } else if times[|times| - 1].pick >= times[0].done + cooldown && strategy == Random {
      s := Uniform(n, None, cooldown);
      OutlastingCooldownRepeats(times, prior, cooldown, n);
    } else {
      s := Uniform(n, Some(prior), cooldown);
      SameMillisecondRepeats(times, prior, cooldown, n, strategy);
    }
  }

  // ----- Exactly when the whole set is tried -----

  /** The claim itself. For given clock readings and strategy, every request that fails
      throughout has tried the whole set, for every pool and draw, iff there was one attempt
      per proxy and the condition holds. */
  lemma TriesWholeSetIff(times: seq<Attempt>, prior: int, cooldown: int, n: nat, strategy: Strategy)
    requires 0 < n && |times| <= n && Timeline(times)
    requires times != [] ==> prior <= times[0].pick
    ensures (forall s: State, cfg: Config, env: seq<Attempt>
               | Request(s, cfg, env, times, prior, cooldown, n, strategy) && AllFail(env) ::
               Loop(s, cfg, env, {}).1 == Exhausted(AllIds(s)))
       <==> |times| == n && NeverRepeats(strategy, times, prior, cooldown)
  {
    hide Loop, Picks, Drawable, AllIds, Distinct, AllFail, AllButLastFail, DistinctIds, AllBooked, NeverRepeats;
    if |times| == n && NeverRepeats(strategy, times, prior, cooldown) {
      forall s: State, cfg: Config, env: seq<Attempt>
        | Request(s, cfg, env, times, prior, cooldown, n, strategy) && AllFail(env)
        ensures Loop(s, cfg, env, {}).1 == Exhausted(AllIds(s))
      {
        RequestDistinct(s, cfg, env, times, prior, cooldown, n, strategy);
        ExhaustedCoverIff(s, cfg, env);
      }
    } else if |times| < n {
      FreshRequest(times, prior, cooldown, n, strategy);
      ExhaustedCoverIff(Uniform(n, None, cooldown), Config(strategy, cooldown, 1), Scripted(times));
    } else {
      var s, cfg := SomeRepeat(times, prior, cooldown, n, strategy);
      ExhaustedCoverIff(s, cfg, Scripted(times));
    }
  }

  lemma FreshRequest(times: seq<Attempt>, prior: int, cooldown: int, n: nat, strategy: Strategy)
    requires n > 0
    ensures Request(Uniform(n, None, cooldown), Config(strategy, cooldown, 1), Scripted(times), times, prior, cooldown, n,
                    strategy)
  {
  }

  /** Four proxies, the default strategy, the default budget of three and three quick failures:
      the timing condition holds and the fourth proxy is never tried. */
  lemma DefaultBudgetMisses()
    ensures var times := seq(3, k requires 0 <= k => Attempt(10 * k, 0.0, 10 * k + 1, Refused));
            var s, cfg, env := Uniform(4, None, 60000), Config(RoundRobin, 60000, 1), Scripted(times);
            && Timeline(times) && WithinCooldown(times, -1, 60000)
            && Request(s, cfg, env, times, -1, 60000, 4, RoundRobin)
            && Loop(s, cfg, env, {}).1.Exhausted? && Loop(s, cfg, env, {}).1.attempted < AllIds(s)
  {
    hide Loop, Picks;
    var times := seq(3, k requires 0 <= k => Attempt(10 * k, 0.0, 10 * k + 1, Refused));
    FreshRequest(times, -1, 60000, 4, RoundRobin);
    BudgetBelowSizeMisses(Uniform(4, None, 60000), Config(RoundRobin, 60000, 1), Scripted(times));
  }

  // ----- An error documented to bubble -----

  /** A TypeError without a code, documented to bubble as it is: one proxy, one try, and the
      caller sees exhaustion. */
  lemma TypeErrorDoesNotBubble()
    ensures var e := FetchError(false, Some("TypeError"), None, None);
            var s, cfg, env := Uniform(1, None, 60000), Config(RoundRobin, 60000, 1), [Attempt(0, 0.0, 1, Threw(e))];
            && ClassifyError(e) == UpstreamFailure
            && Loop(s, cfg, env, {}) == (Uniform(1, Some(1), 60000), Exhausted({Name(0)}))
  {
    var e := FetchError(false, Some("TypeError"), None, None);
    var s, cfg, env := Uniform(1, None, 60000), Config(RoundRobin, 60000, 1), [Attempt(0, 0.0, 1, Threw(e))];
    assert ClassifyError(e) == UpstreamFailure;
    OtherErrorsRetried(s, cfg, env, {}, e);
    FreshSingle();
    var s' := AfterAttempt(s, cfg, env[0], 0);
    assert s' == Uniform(1, Some(1), 60000);
    assert env[1..] == [] && {} + {s.entries[0].id} == {Name(0)};
    assert Loop(s', cfg, [], {Name(0)}) == (s', Exhausted({Name(0)}));
  }

  lemma FreshSingle()
    ensures var s, cfg := Uniform(1, None, 60000), Config(RoundRobin, 60000, 1);
            && Next(s, cfg, 0, 0.0) == (s, Some(0))
            && Report(s, cfg, Name(0), UpstreamFailure, 1) == Uniform(1, Some(1), 60000)
  {
    var s, cfg := Uniform(1, None, 60000), Config(RoundRobin, 60000, 1);
    assert HealthyBelow(s.entries, 0, 1) == HealthyBelow(s.entries, 0, 0) + [0];
    assert Scan(s.entries, 0, 0, 0) == 0;
    FindOwnId(s, 0);
    assert Report(s, cfg, Name(0), UpstreamFailure, 1).entries == Uniform(1, Some(1), 60000).entries;
  }

  // ----- The random fallback -----

  /** Two proxies that failed in the same millisecond: every draw falls back to the first. */
  lemma RandomFallbackNotUniform(t: int, cooldown: int, r: real)
    requires cooldown > 0 && 0.0 <= r < 1.0
    ensures var s, cfg := Uniform(2, Some(t), cooldown), Config(Random, cooldown, 1);
            && Run(Fresh(Names(2)), cfg, CallsThenReports(2, 0, t)) == s
            && NothingHealthy(s, t) && Next(s, cfg, t, r).1 == Some(0) && !FallbackReachesAll(s, cfg, t)
  {
    hide Next, FallbackReachesAll;
    var s, cfg := Uniform(2, Some(t), cooldown), Config(Random, cooldown, 1);
    UniformReachable(2, t, cfg, 0);
    FallbackIgnoresDraw(s, cfg, t, r);
    FallbackReachesAllIff(s, cfg, t);
  }
}
