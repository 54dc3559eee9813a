/** When the failover loop of one request tries every proxy at most once. */
module Failover {
  import opened Sets
  import opened Wrappers
  import opened ProxyPool
  import opened PoolRuns
  import opened Egress

  /** The entries tried, in order, as long as nothing succeeds. */
  function Picks(s: State, cfg: Config, env: seq<Attempt>): (p: seq<nat>)
    requires Drawable(env) && s.entries != []
    ensures |p| == |env| && forall k | 0 <= k < |p| :: p[k] < |s.entries|
    decreases |env|
  {
    if env == [] then []
    else
      NextInRange(s, cfg, env[0].pick, env[0].r);
      var i := Next(s, cfg, env[0].pick, env[0].r).1.value;
      [i] + Picks(AfterAttempt(s, cfg, env[0], i), cfg, env[1..])
  }

  lemma PicksStep(s: State, cfg: Config, env: seq<Attempt>) returns (i: nat, s': State)
    requires Drawable(env) && s.entries != [] && env != []
    ensures Next(s, cfg, env[0].pick, env[0].r).1 == Some(i) && i < |s.entries|
    ensures s' == AfterAttempt(s, cfg, env[0], i) && s'.entries != []
    ensures Picks(s, cfg, env) == [i] + Picks(s', cfg, env[1..])
  {
    hide HealthyBelow, Scan, Earliest, Picks;
    NextInRange(s, cfg, env[0].pick, env[0].r);
    i := Next(s, cfg, env[0].pick, env[0].r).1.value;
    s' := AfterAttempt(s, cfg, env[0], i);
    PicksUnfold(s, cfg, env);
  }

  lemma PicksUnfold(s: State, cfg: Config, env: seq<Attempt>)
    requires Drawable(env) && s.entries != [] && env != []
    ensures Next(s, cfg, env[0].pick, env[0].r).1.Some?
    ensures var i := Next(s, cfg, env[0].pick, env[0].r).1.value;
            && i < |s.entries| && AfterAttempt(s, cfg, env[0], i).entries != []
            && Picks(s, cfg, env) == [i] + Picks(AfterAttempt(s, cfg, env[0], i), cfg, env[1..])
  {
    hide HealthyBelow, Scan, Earliest;
    NextInRange(s, cfg, env[0].pick, env[0].r);
  }

  ghost predicate AllFail(env: seq<Attempt>) {
    forall i | 0 <= i < |env| :: IsFailure(OutcomeOf(env[i]))
  }

  /** What a request does: it goes on after a failure and stops after anything else. */
  ghost predicate AllButLastFail(env: seq<Attempt>) {
    forall i | 0 <= i < |env| - 1 :: IsFailure(OutcomeOf(env[i]))
  }

  /** The clock never goes backwards during the call. */
  ghost predicate Timeline(env: seq<Attempt>) {
    && (forall i | 0 <= i < |env| :: env[i].pick <= env[i].done)
    && (forall i, j | 0 <= i < j < |env| :: env[i].done <= env[j].pick)
  }

  ghost predicate DistinctIds(s: State) {
    forall i, j | 0 <= i < j < |s.entries| :: s.entries[i].id != s.entries[j].id
  }

  /** A pool as it can be when the call starts, every earlier failure having happened by
      time prior. */
  ghost predicate Admissible(s: State, cfg: Config, prior: int) {
    && cfg.threshold == 1 && AllBooked(s, cfg) && DistinctIds(s)
    && forall i | 0 <= i < |s.entries| ::
         s.entries[i].lastFailureAt.Some? ==> s.entries[i].lastFailureAt.value <= prior
  }

  ghost predicate Distinct(p: seq<nat>) {
    forall i, j | 0 <= i < j < |p| :: p[i] != p[j]
  }

  // ----- One attempt -----

  lemma FindOwnId(s: State, i: nat)
    requires DistinctIds(s) && i < |s.entries|
    ensures FindId(s.entries, s.entries[i].id) == Some(i)
  {
    var r := FindId(s.entries, s.entries[i].id);
  }

  /** A failed attempt parks exactly the entry it used. */
  lemma AttemptParks(s: State, cfg: Config, a: Attempt, i: nat)
    requires 0.0 <= a.r < 1.0 && i < |s.entries| && DistinctIds(s) && cfg.threshold <= 1
    requires IsFailure(OutcomeOf(a))
    ensures var s' := AfterAttempt(s, cfg, a, i);
            && |s'.entries| == |s.entries| && DistinctIds(s')
            && s'.entries[i].cooldownUntil == Some(a.done + cfg.cooldown)
            && (forall j | 0 <= j < |s.entries| && j != i :: s'.entries[j] == s.entries[j])
            && (CursorInRange(s) ==> CursorInRange(s'))
  {
    hide HealthyBelow, Scan, Earliest;
    NextInRange(s, cfg, a.pick, a.r);
    if CursorInRange(s) { NextKeepsCursor(s, cfg, a.pick, a.r); }
    FindOwnId(Next(s, cfg, a.pick, a.r).0, i);
  }

  lemma {:induction false} ScanHealthy(es: seq<Entry>, t: int, cursor: nat, i: nat, off: nat)
    requires cursor < |es| && i < |es| && Healthy(es[i], t) && off <= Distance(cursor, i, |es|)
    ensures Scan(es, t, cursor, off) < |es| && Healthy(es[Scan(es, t, cursor, off)], t)
    decreases |es| - off
  {
    var k := StepsTo(cursor, i, |es|);
    if !Healthy(es[Ring(cursor, off, |es|)], t) {
      assert off < k;
      ScanHealthy(es, t, cursor, i, off + 1);
    }
  }

  /** next() prefers healthy entries; failing that it takes the earliest deadline. */
  lemma NextPrefersHealthy(s: State, cfg: Config, t: int, r: real)
    requires 0.0 <= r < 1.0 && s.entries != [] && CursorInRange(s)
    ensures var c := Next(s, cfg, t, r).1;
            && c.Some? && c.value < |s.entries|
            && (Healthy(s.entries[c.value], t)
                || forall j | 0 <= j < |s.entries| ::
                     !Healthy(s.entries[j], t) && Deadline(s.entries[c.value]) <= Deadline(s.entries[j]))
  {
    var n := |s.entries|;
    var h := HealthyBelow(s.entries, t, n);
    if h == [] {
      forall j | 0 <= j < n
        ensures !Healthy(s.entries[j], t)
      {
        if Healthy(s.entries[j], t) { HealthyBelowComplete(s.entries, t, n, j); }
      }
    } else {
      ScanHealthy(s.entries, t, s.cursor, h[0], 0);
    }
  }

  // ----- No repetition under the condition -----

  lemma {:induction false} SomeoneUntried(tried: set<nat>, n: nat) returns (u: nat)
    requires (forall i | i in tried :: i < n) && |tried| < n
    ensures u < n && u !in tried
  {
    if n - 1 in tried {
      u := SomeoneUntried(tried - {n - 1}, n - 1);
    } else {
      u := n - 1;
    }
  }

  /** Entries tried so far are parked until at least first + cooldown, all others shorter. */
  ghost predicate Separated(s: State, cfg: Config, tried: set<nat>, first: int) {
    forall i | 0 <= i < |s.entries| ::
      if i in tried then
        s.entries[i].cooldownUntil.Some? && s.entries[i].cooldownUntil.value >= first + cfg.cooldown
      else
        s.entries[i].cooldownUntil.Some? ==> s.entries[i].cooldownUntil.value < first + cfg.cooldown
  }

  lemma NextAvoidsTried(s: State, cfg: Config, tried: set<nat>, first: int, t: int, r: real)
    requires 0.0 <= r < 1.0 && s.entries != [] && CursorInRange(s) && Separated(s, cfg, tried, first)
    requires (forall i | i in tried :: i < |s.entries|) && |tried| < |s.entries| && t < first + cfg.cooldown
    ensures Next(s, cfg, t, r).1.Some? && Next(s, cfg, t, r).1.value !in tried
  {
    hide Next;
    NextPrefersHealthy(s, cfg, t, r);
    var u := SomeoneUntried(tried, |s.entries|);
  }

  lemma ParkedJoinsTried(s: State, cfg: Config, a: Attempt, i: nat, tried: set<nat>, first: int)
    requires 0.0 <= a.r < 1.0 && i < |s.entries| && DistinctIds(s) && cfg.threshold == 1 && CursorInRange(s)
    requires IsFailure(OutcomeOf(a)) && first <= a.done && Separated(s, cfg, tried, first)
    ensures var s' := AfterAttempt(s, cfg, a, i);
            Separated(s', cfg, tried + {i}, first) && CursorInRange(s') && DistinctIds(s') && |s'.entries| == |s.entries|
  {
    hide AfterAttempt;
    AttemptParks(s, cfg, a, i);
  }

  lemma FirstFailureSeparates(s: State, cfg: Config, a: Attempt, i: nat, prior: int)
    requires 0.0 <= a.r < 1.0 && i < |s.entries| && Admissible(s, cfg, prior)
    requires IsFailure(OutcomeOf(a)) && prior < a.done
    ensures var s' := AfterAttempt(s, cfg, a, i);
            Separated(s', cfg, {i}, a.done) && CursorInRange(s') && DistinctIds(s') && |s'.entries| == |s.entries|
  {
    hide AfterAttempt;
    AttemptParks(s, cfg, a, i);
    forall j | 0 <= j < |s.entries| && j != i && s.entries[j].cooldownUntil.Some?
      ensures s.entries[j].cooldownUntil.value < a.done + cfg.cooldown
    {
      assert Booked(s.entries[j], cfg);
    }
  }

  lemma {:induction false} PicksAvoidTried(s: State, cfg: Config, env: seq<Attempt>, tried: set<nat>, first: int)
    requires Drawable(env) && s.entries != [] && CursorInRange(s) && DistinctIds(s) && cfg.threshold == 1
    requires Separated(s, cfg, tried, first) && (forall i | i in tried :: i < |s.entries|)
    requires AllButLastFail(env) && |tried| + |env| <= |s.entries|
    requires forall k | 0 <= k < |env| :: env[k].pick < first + cfg.cooldown && first <= env[k].done
    ensures Distinct(Picks(s, cfg, env)) && forall k | 0 <= k < |env| :: Picks(s, cfg, env)[k] !in tried
    decreases |env|
  {
    if env == [] {
      assert Picks(s, cfg, env) == [];
    } else {
      hide Next, AfterAttempt, Picks, Separated, DistinctIds, OutcomeOf, IsFailure, Distinct, AllButLastFail, Drawable;
      var a, rest := env[0], env[1..];
      RequestTail(env);
      NextAvoidsTried(s, cfg, tried, first, a.pick, a.r);
      var i, s' := PicksStep(s, cfg, env);
      if rest == [] {
        NothingPicked(s', cfg);
        ConsAvoids(i, [], tried);
      } else {
        ParkedJoinsTried(s, cfg, a, i, tried, first);
        PicksAvoidTried(s', cfg, rest, tried + {i}, first);
        ConsAvoids(i, Picks(s', cfg, rest), tried);
      }
    }
  }

  lemma RequestTail(env: seq<Attempt>)
    requires Drawable(env) && AllButLastFail(env) && env != []
    ensures Drawable(env[1..]) && AllButLastFail(env[1..]) && 0.0 <= env[0].r < 1.0
    ensures env[1..] != [] ==> IsFailure(OutcomeOf(env[0]))
  {
    hide IsFailure, OutcomeOf;
  }

  lemma NothingPicked(s: State, cfg: Config)
    requires s.entries != []
    ensures Picks(s, cfg, []) == []
  {
  }

  lemma ConsAvoids(i: nat, p: seq<nat>, tried: set<nat>)
    requires Distinct(p) && i !in tried && forall k | 0 <= k < |p| :: p[k] !in tried + {i}
    ensures |[i] + p| == |p| + 1 && Distinct([i] + p) && forall k | 0 <= k < |p| + 1 :: ([i] + p)[k] !in tried
  {
    forall k | 0 <= k < |p|
      ensures p[k] != i && p[k] !in tried
    {
      assert p[k] !in tried + {i};
    }
  }

  /** The condition a caller can check on the clock readings: either one attempt only, or no
      earlier failure shares the millisecond of the first one and the last proxy is picked
      before the first one leaves its cooldown. */
  ghost predicate WithinCooldown(env: seq<Attempt>, prior: int, cooldown: int) {
    |env| <= 1 || (prior < env[0].done && env[|env| - 1].pick < env[0].done + cooldown)
  }

  /** Under the condition all later picks fall before the first entry tried is free again. */
  lemma LaterPicks(env: seq<Attempt>, prior: int, cooldown: int, k: nat)
    requires Timeline(env) && WithinCooldown(env, prior, cooldown) && k + 1 < |env|
    ensures env[1..][k].pick < env[0].done + cooldown && env[0].done <= env[1..][k].done
  {
    var last := |env| - 1;
    assert env[0].done <= env[k + 1].pick <= env[k + 1].done;
    if k + 1 < last {
      assert env[k + 1].done <= env[last].pick;
    }
  }

  lemma {:induction false} AttemptsDistinct(s: State, cfg: Config, env: seq<Attempt>, prior: int)
    requires Drawable(env) && AllButLastFail(env) && Timeline(env) && Admissible(s, cfg, prior)
    requires |env| <= |s.entries| && s.entries != [] && WithinCooldown(env, prior, cfg.cooldown)
    ensures Distinct(Picks(s, cfg, env))
  {
    if |env| >= 2 {
      hide Next, AfterAttempt, Picks, Separated, DistinctIds, OutcomeOf, AllBooked, Drawable, AllButLastFail, IsFailure, Timeline;
      var a, rest, first := env[0], env[1..], env[0].done;
      RequestTail(env);
      var i, s' := PicksStep(s, cfg, env);
      FirstFailureSeparates(s, cfg, a, i, prior);
      forall k | 0 <= k < |rest|
        ensures rest[k].pick < first + cfg.cooldown && first <= rest[k].done
      {
        LaterPicks(env, prior, cfg.cooldown, k);
      }
      PicksAvoidTried(s', cfg, rest, {i}, first);
      ConsAvoids(i, Picks(s', cfg, rest), {});
    }
  }

  /** The trips the loop makes: up to the first that is no failure, or all of them. */
  function Trips(env: seq<Attempt>): (n: nat)
    ensures n <= |env| && (env != [] ==> n > 0)
  {
    if env == [] then 0 else if IsFailure(OutcomeOf(env[0])) then 1 + Trips(env[1..]) else 1
  }

  lemma {:induction false} TripsFail(env: seq<Attempt>)
    ensures AllButLastFail(env[..Trips(env)])
    ensures Trips(env) == |env| <==> AllButLastFail(env)
    ensures Trips(env) < |env| ==> !IsFailure(OutcomeOf(env[Trips(env) - 1]))
  {
    if env != [] {
      hide IsFailure, OutcomeOf;
      var n := Trips(env);
      if IsFailure(OutcomeOf(env[0])) {
        TripsFail(env[1..]);
        assert env[..n][1..] == env[1..][..n - 1];
        forall k | 0 <= k < n - 1
          ensures IsFailure(OutcomeOf(env[k]))
        {
          if k > 0 { assert env[1..][..n - 1][k - 1] == env[k]; }
        }
        if AllButLastFail(env) {
          assert forall k | 0 <= k < |env[1..]| - 1 :: env[1..][k] == env[k + 1];
        }
        if n < |env| { assert env[1..][n - 2] == env[n - 1]; }
      }
    }
  }

  lemma UsedTrips(env: seq<Attempt>)
    requires Drawable(env)
    ensures Drawable(env[..Trips(env)]) && AllButLastFail(env[..Trips(env)])
    ensures Timeline(env) ==> Timeline(env[..Trips(env)])
  {
    TripsFail(env);
  }

  /** One request, whatever its attempts come back with: it tries no proxy twice. */
  lemma NoProxyTwice(s: State, cfg: Config, env: seq<Attempt>, prior: int)
    requires Drawable(env) && Timeline(env) && Admissible(s, cfg, prior)
    requires |env| <= |s.entries| && s.entries != [] && WithinCooldown(env[..Trips(env)], prior, cfg.cooldown)
    ensures Drawable(env[..Trips(env)]) && Distinct(Picks(s, cfg, env[..Trips(env)]))
  {
    hide Drawable, Timeline, Admissible, Distinct, WithinCooldown;
    UsedTrips(env);
    AttemptsDistinct(s, cfg, env[..Trips(env)], prior);
  }

  // ----- What exhaustion means -----

  function IdsOf(s: State, p: seq<nat>): set<string>
    requires forall k | 0 <= k < |p| :: p[k] < |s.entries|
  {
    set k | 0 <= k < |p| :: s.entries[p[k]].id
  }

  /** How a request ends that tried the entries p, one per attempt of used. */
  function EndingOf(used: seq<Attempt>, p: seq<nat>, ids: set<string>): Ending
    requires |p| == |used|
  {
    if used == [] || IsFailure(OutcomeOf(used[|used| - 1])) then Exhausted(ids)
    else match used[|used| - 1].reply
      case Responded => ResponseFrom(p[|used| - 1])
      case Threw(e) => AbortedBy(e)
  }

  /** Whatever the attempts come back with, the loop tries exactly the picked entries and ends
      as the last attempt says. */
  lemma {:induction false} LoopFollowsPicks(s: State, cfg: Config, env: seq<Attempt>, attempted: set<string>)
    requires Drawable(env) && s.entries != []
    ensures var used := env[..Trips(env)];
            && Drawable(used)
            && Loop(s, cfg, env, attempted).1
               == EndingOf(used, Picks(s, cfg, used), attempted + IdsOf(s, Picks(s, cfg, used)))
    decreases |env|
  {
    var used := env[..Trips(env)];
    if env == [] {
      LoopEmpty(s, cfg, attempted);
      assert attempted + IdsOf(s, []) == attempted;
    } else {
      hide Next, AfterAttempt, Picks, Loop, IdsOf, OutcomeOf, IsFailure, Drawable, Trips, AllButLastFail;
      var a, rest := env[0], env[1..];
      TripsStep(env);
      UsedTrips(env);
      DrawableTail(env);
      var i, s' := PicksStep(s, cfg, env);
      SameIds(s, cfg, a, i);
      PicksOfUsed(s, cfg, env, i, s');
      if IsFailure(OutcomeOf(a)) {
        LoopStep(s, cfg, env, attempted, i);
        LoopFollowsPicks(s', cfg, rest, attempted + {s.entries[i].id});
        IdsOfCons(s, s', i, Picks(s', cfg, used[1..]));
        UnionAssociative(attempted, {s.entries[i].id}, IdsOf(s', Picks(s', cfg, used[1..])));
        EndingOfCons(a, used[1..], i, Picks(s', cfg, used[1..]), attempted + IdsOf(s, Picks(s, cfg, used)));
      } else {
        LoopStops(s, cfg, env, attempted, i);
        NothingPicked(s', cfg);
      }
    }
  }

  lemma TripsStep(env: seq<Attempt>)
    requires env != []
    ensures var used := env[..Trips(env)];
            if IsFailure(OutcomeOf(env[0])) then
              used == [env[0]] + env[1..][..Trips(env[1..])] && used[1..] == env[1..][..Trips(env[1..])]
            else
              used == [env[0]] && used[1..] == []
  {
    hide IsFailure, OutcomeOf;
    TakeCons(env, if IsFailure(OutcomeOf(env[0])) then Trips(env[1..]) else 0);
  }

  lemma TakeCons(env: seq<Attempt>, n: nat)
    requires n < |env|
    ensures env[..n + 1] == [env[0]] + env[1..][..n] && env[..n + 1][1..] == env[1..][..n]
  {
  }

  lemma DrawableTail(env: seq<Attempt>)
    requires Drawable(env) && env != []
    ensures Drawable(env[1..]) && 0.0 <= env[0].r < 1.0
  {
  }

  lemma PicksOfUsed(s: State, cfg: Config, env: seq<Attempt>, i: nat, s': State)
    requires Drawable(env) && Drawable(env[..Trips(env)]) && s.entries != [] && env != []
    requires Next(s, cfg, env[0].pick, env[0].r).1 == Some(i) && i < |s.entries|
    requires s' == AfterAttempt(s, cfg, env[0], i) && s'.entries != []
    ensures var used := env[..Trips(env)];
            Drawable(used[1..]) && Picks(s, cfg, used) == [i] + Picks(s', cfg, used[1..])
  {
    hide Next, AfterAttempt, Picks;
    PicksUnfold(s, cfg, env[..Trips(env)]);
  }

  lemma EndingOfCons(a: Attempt, used: seq<Attempt>, i: nat, p: seq<nat>, ids: set<string>)
    requires |p| == |used| && IsFailure(OutcomeOf(a))
    ensures EndingOf([a] + used, [i] + p, ids) == EndingOf(used, p, ids)
  {
    hide IsFailure, OutcomeOf;
  }

  lemma LoopStops(s: State, cfg: Config, env: seq<Attempt>, attempted: set<string>, i: nat)
    requires Drawable(env) && s.entries != [] && env != [] && !IsFailure(OutcomeOf(env[0]))
    requires Next(s, cfg, env[0].pick, env[0].r).1 == Some(i) && i < |s.entries|
    ensures Loop(s, cfg, env, attempted).1
         == if env[0].reply.Responded? then ResponseFrom(i) else AbortedBy(env[0].reply.error)
  {
    hide HealthyBelow, Scan, Earliest, AfterAttempt;
    OutcomeCases(env[0]);
  }

  lemma OutcomeCases(a: Attempt)
    ensures OutcomeOf(a) == Succeeded <==> a.reply.Responded?
    ensures !IsFailure(OutcomeOf(a)) ==> a.reply.Responded? || OutcomeOf(a) == Aborted
  {
  }

  /** The attempt that ends the request with the caller's own error: an abort-like one, after
      errors that are not. */
  ghost predicate RethrownAt(env: seq<Attempt>, k: nat, e: FetchError) {
    && k < |env| && env[k].reply == Threw(e) && AbortLike(e)
    && forall j | 0 <= j < k :: env[j].reply.Threw? && !AbortLike(env[j].reply.error)
  }

  /** An error reaches the caller as it is exactly when it is abort-like and every attempt
      before it threw something that is not. */
  lemma ErrorRethrownIff(s: State, cfg: Config, env: seq<Attempt>, e: FetchError)
    requires Drawable(env) && s.entries != []
    ensures Loop(s, cfg, env, {}).1 == AbortedBy(e) <==> exists k: nat :: RethrownAt(env, k, e)
  {
    hide Loop, Picks, Drawable, IdsOf, IsFailure, OutcomeOf, AbortLike;
    var n := Trips(env);
    TripsFail(env);
    LoopFollowsPicks(s, cfg, env, {});
    forall j | 0 <= j < |env|
      ensures IsFailure(OutcomeOf(env[j])) <==> env[j].reply.Threw? && !AbortLike(env[j].reply.error)
    {
      FailsIff(env[j]);
    }
    if env == [] {
      assert Trips(env) == 0;
    } else {
      assert env[..n][n - 1] == env[n - 1];
      forall k: nat | RethrownAt(env, k, e)
        ensures k == n - 1
      {
        TripsUpTo(env, k);
      }
      if Loop(s, cfg, env, {}).1 == AbortedBy(e) {
        forall j | 0 <= j < n - 1
          ensures IsFailure(OutcomeOf(env[j]))
        {
          assert env[..n][j] == env[j];
        }
        assert RethrownAt(env, n - 1, e);
      }
    }
  }

  lemma FailsIff(a: Attempt)
    ensures IsFailure(OutcomeOf(a)) <==> a.reply.Threw? && !AbortLike(a.reply.error)
  {
    hide ClassifyError;
    if a.reply.Threw? { AbortedIff(a.reply.error); }
  }

  lemma {:induction false} TripsUpTo(env: seq<Attempt>, k: nat)
    requires k < |env| && !IsFailure(OutcomeOf(env[k])) && forall j | 0 <= j < k :: IsFailure(OutcomeOf(env[j]))
    ensures Trips(env) == k + 1
  {
    if k > 0 {
      forall j | 0 <= j < k - 1
        ensures IsFailure(OutcomeOf(env[1..][j]))
      {
        assert env[1..][j] == env[j + 1];
      }
      TripsUpTo(env[1..], k - 1);
    }
  }

  /** Any other error parks the proxy it came through, and the loop goes on without telling
      the caller. */
  lemma OtherErrorsRetried(s: State, cfg: Config, env: seq<Attempt>, attempted: set<string>, e: FetchError)
    requires Drawable(env) && s.entries != [] && env != [] && DistinctIds(s) && cfg.threshold <= 1
    requires env[0].reply == Threw(e) && !AbortLike(e)
    ensures var i := Next(s, cfg, env[0].pick, env[0].r).1;
            && i.Some? && i.value < |s.entries|
            && var s' := AfterAttempt(s, cfg, env[0], i.value);
               && i.value < |s'.entries|
               && s'.entries[i.value].cooldownUntil == Some(env[0].done + cfg.cooldown)
               && Loop(s, cfg, env, attempted) == Loop(s', cfg, env[1..], attempted + {s.entries[i.value].id})
  {
    hide Loop, Next, AfterAttempt, ClassifyError;
    AbortedIff(e);
    NextInRange(s, cfg, env[0].pick, env[0].r);
    var i := Next(s, cfg, env[0].pick, env[0].r).1.value;
    DrawableTail(env);
    AttemptParks(s, cfg, env[0], i);
    LoopStep(s, cfg, env, attempted, i);
  }

  /** If every attempt fails the loop ends exhausted with exactly the picked ids. */
  lemma LoopExhausts(s: State, cfg: Config, env: seq<Attempt>, attempted: set<string>)
    requires Drawable(env) && AllFail(env) && s.entries != []
    ensures Loop(s, cfg, env, attempted).1 == Exhausted(attempted + IdsOf(s, Picks(s, cfg, env)))
  {
    hide IsFailure, OutcomeOf, Loop, Picks, IdsOf, Drawable;
    TripsFail(env);
    LoopFollowsPicks(s, cfg, env, attempted);
    assert env[..|env|] == env;
  }

  lemma UnionAssociative(a: set<string>, b: set<string>, c: set<string>)
    ensures (a + b) + c == a + (b + c)
  {
  }

  lemma LoopEmpty(s: State, cfg: Config, attempted: set<string>)
    requires s.entries != []
    ensures Loop(s, cfg, [], attempted).1 == Exhausted(attempted) && Picks(s, cfg, []) == []
  {
  }

  lemma LoopStep(s: State, cfg: Config, env: seq<Attempt>, attempted: set<string>, i: nat)
    requires Drawable(env) && s.entries != [] && env != [] && IsFailure(OutcomeOf(env[0]))
    requires Next(s, cfg, env[0].pick, env[0].r).1 == Some(i) && i < |s.entries|
    ensures Loop(s, cfg, env, attempted)
         == Loop(AfterAttempt(s, cfg, env[0], i), cfg, env[1..], attempted + {s.entries[i].id})
  {
    hide HealthyBelow, Scan, Earliest;
  }

  lemma SameIds(s: State, cfg: Config, a: Attempt, i: nat)
    requires 0.0 <= a.r < 1.0 && i < |s.entries|
    ensures var s' := AfterAttempt(s, cfg, a, i);
            |s'.entries| == |s.entries| && forall j | 0 <= j < |s.entries| :: s'.entries[j].id == s.entries[j].id
  {
    hide HealthyBelow, Scan, Earliest;
    NextInRange(s, cfg, a.pick, a.r);
  }

  lemma IdsOfCons(s: State, s': State, i: nat, p: seq<nat>)
    requires |s'.entries| == |s.entries| && i < |s.entries| && forall k | 0 <= k < |p| :: p[k] < |s.entries|
    requires forall j | 0 <= j < |s.entries| :: s'.entries[j].id == s.entries[j].id
    ensures IdsOf(s, [i] + p) == {s.entries[i].id} + IdsOf(s', p)
  {
    var q := [i] + p;
    forall id | id in IdsOf(s', p)
      ensures id in IdsOf(s, q)
    {
      var k :| 0 <= k < |p| && s'.entries[p[k]].id == id;
      assert q[k + 1] == p[k];
    }
    assert q[0] == i;
    forall id | id in IdsOf(s, q)
      ensures id == s.entries[i].id || id in IdsOf(s', p)
    {
      var k :| 0 <= k < |q| && s.entries[q[k]].id == id;
      if k > 0 { assert q[k] == p[k - 1]; }
    }
  }

  /** n different indices below n are all of them. */
  lemma {:induction false} DistinctCoversAll(p: seq<nat>, n: nat, i: nat)
    requires Distinct(p) && |p| == n && (forall k | 0 <= k < n :: p[k] < n) && i < n
    ensures i in p
  {
    if i !in p {
      BelowSize(n);
      ImageSize(p, n);
      ImageWithin(p, n, Below(n) - {i});
      SubsetSize(Image(p, n), Below(n) - {i});
      assert false;
    }
  }

  function Below(n: nat): (s: set<nat>)
    ensures forall j: nat :: j in s <==> j < n
  {
    if n == 0 then {} else Below(n - 1) + {n - 1}
  }

  function Image(p: seq<nat>, n: nat): set<nat>
    requires n <= |p|
  {
    if n == 0 then {} else Image(p, n - 1) + {p[n - 1]}
  }

  lemma {:induction false} ImageWithin(p: seq<nat>, n: nat, bound: set<nat>)
    requires n <= |p| && forall k | 0 <= k < n :: p[k] in bound
    ensures Image(p, n) <= bound
  {
    if n > 0 {
      ImageWithin(p, n - 1, bound);
    }
  }

  lemma {:induction false} NotInImage(p: seq<nat>, n: nat, x: nat)
    requires n <= |p| && forall k | 0 <= k < n :: p[k] != x
    ensures x !in Image(p, n)
  {
    if n > 0 {
      NotInImage(p, n - 1, x);
    }
  }

  lemma {:induction false} BelowSize(n: nat)
    ensures |Below(n)| == n
  {
    if n > 0 {
      BelowSize(n - 1);
      AddSize(Below(n - 1), n - 1);
    }
  }

  lemma {:induction false} ImageSize(p: seq<nat>, n: nat)
    requires Distinct(p) && n <= |p|
    ensures |Image(p, n)| == n
  {
    if n > 0 {
      ImageSize(p, n - 1);
      NotInImage(p, n - 1, p[n - 1]);
      AddSize(Image(p, n - 1), p[n - 1]);
    }
  }

  /** Fewer picks than entries, or a repeated one, leave some entry out. */
  lemma SomeIndexMissed(p: seq<nat>, n: nat) returns (u: nat)
    requires (forall k | 0 <= k < |p| :: p[k] < n) && |p| <= n && (|p| < n || !Distinct(p))
    ensures u < n && u !in p
  {
    if |p| < n {
      ImageCovers(p, |p|, n);
      u := SomeoneUntried(Image(p, |p|), n);
      ImageHas(p, |p|);
    } else {
      var i, j :| 0 <= i < j < |p| && p[i] == p[j];
      var q := p[..j] + p[j + 1..];
      u := SomeIndexMissed(q, n);
      forall k | 0 <= k < |p|
        ensures p[k] != u
      {
        assert q[if k < j then k else if k == j then i else k - 1] == p[k];
      }
    }
  }

  lemma {:induction false} ImageCovers(p: seq<nat>, k: nat, n: nat)
    requires k <= |p| && forall i | 0 <= i < k :: p[i] < n
    ensures |Image(p, k)| <= k && forall v | v in Image(p, k) :: v < n
  {
    if k > 0 {
      ImageCovers(p, k - 1, n);
    }
  }

  lemma {:induction false} ImageHas(p: seq<nat>, k: nat)
    requires k <= |p|
    ensures forall i | 0 <= i < k :: p[i] in Image(p, k)
  {
    if k > 0 {
      ImageHas(p, k - 1);
    }
  }

  function AllIds(s: State): set<string> {
    set i | 0 <= i < |s.entries| :: s.entries[i].id
  }

  /** Picks within the pool cover all ids exactly when they are all different and as many as
      there are entries. */
  lemma CoverIff(s: State, p: seq<nat>)
    requires DistinctIds(s) && |p| <= |s.entries| && forall k | 0 <= k < |p| :: p[k] < |s.entries|
    ensures IdsOf(s, p) == AllIds(s) <==> |p| == |s.entries| && Distinct(p)
  {
    var n := |s.entries|;
    if |p| == n && Distinct(p) {
      forall id | id in AllIds(s)
        ensures id in IdsOf(s, p)
      {
        var i: nat :| i < n && s.entries[i].id == id;
        DistinctCoversAll(p, n, i);
        var k :| 0 <= k < n && p[k] == i;
      }
      assert IdsOf(s, p) == AllIds(s);
    } else {
      var u := SomeIndexMissed(p, n);
      assert s.entries[u].id in AllIds(s);
      forall k | 0 <= k < |p|
        ensures s.entries[p[k]].id != s.entries[u].id
      {
        assert p[k] != u;
      }
    }
  }

  /** With a budget of the pool size, a request that gives up within the cooldown has tried
      every proxy. */
  lemma ExhaustionTriedAll(s: State, cfg: Config, env: seq<Attempt>, prior: int)
    requires Drawable(env) && AllFail(env) && Timeline(env) && Admissible(s, cfg, prior)
    requires |env| == |s.entries| > 0 && WithinCooldown(env, prior, cfg.cooldown)
    ensures Loop(s, cfg, env, {}).1 == Exhausted(AllIds(s))
  {
    hide Loop, Picks, Drawable, IdsOf, AllIds, IsFailure, OutcomeOf, Timeline;
    AttemptsDistinct(s, cfg, env, prior);
    ExhaustedCoverIff(s, cfg, env);
  }

  lemma ExhaustedCoverIff(s: State, cfg: Config, env: seq<Attempt>)
    requires Drawable(env) && AllFail(env) && 0 < |s.entries| && DistinctIds(s) && |env| <= |s.entries|
    ensures Loop(s, cfg, env, {}).1 == Exhausted(AllIds(s))
       <==> |env| == |s.entries| && Distinct(Picks(s, cfg, env))
  {
    hide Loop, Picks, Drawable, IdsOf, AllIds, Distinct, AllFail, DistinctIds;
    LoopExhausts(s, cfg, env, {});
    CoverIff(s, Picks(s, cfg, env));
    assert {} + IdsOf(s, Picks(s, cfg, env)) == IdsOf(s, Picks(s, cfg, env));
  }

  /** A budget below the pool size never reaches the whole set, whatever the clock says. */
  lemma BudgetBelowSizeMisses(s: State, cfg: Config, env: seq<Attempt>)
    requires Drawable(env) && AllFail(env) && DistinctIds(s) && |env| < |s.entries|
    ensures Loop(s, cfg, env, {}).1.Exhausted? && Loop(s, cfg, env, {}).1.attempted < AllIds(s)
  {
    hide Loop, Picks, Drawable, AllFail, DistinctIds;
    LoopExhausts(s, cfg, env, {});
    ExhaustedCoverIff(s, cfg, env);
    assert {} + IdsOf(s, Picks(s, cfg, env)) == IdsOf(s, Picks(s, cfg, env));
  }
}
