/** What a request reports to the pool: the state it leaves is that of its next() and report()
    calls. */
module FailoverReports {
  import opened Wrappers
  import opened ProxyPool
  import opened PoolRuns
  import opened Egress
  import opened Failover

  /** The calls one attempt makes: next(), then report() with what the reply shows. */
  function CallsOf(a: Attempt, id: string): seq<Event> {
    var seen := if a.reply.Responded? then Succeeded
                else if AbortLike(a.reply.error) then Aborted
                else ClassifyError(a.reply.error);
    [NextCall(a.pick, a.r), ReportCall(id, seen, a.done)]
  }

  /** All calls of the request, until a response or an abort ends it. */
  function CallsMade(s: State, cfg: Config, env: seq<Attempt>): (evs: seq<Event>)
    requires Drawable(env) && s.entries != []
    ensures WellFormedRun(evs)
    decreases |env|
  {
    if env == [] then []
    else
      NextInRange(s, cfg, env[0].pick, env[0].r);
      var a, i := env[0], Next(s, cfg, env[0].pick, env[0].r).1.value;
      var calls := CallsOf(a, s.entries[i].id);
      if a.reply.Responded? || AbortLike(a.reply.error) then calls
      else
        SameIds(s, cfg, a, i);
        calls + CallsMade(AfterAttempt(s, cfg, a, i), cfg, env[1..])
  }

  lemma {:induction false} RunAppend(s: State, cfg: Config, a: seq<Event>, b: seq<Event>)
    requires WellFormedRun(a) && WellFormedRun(b)
    ensures WellFormedRun(a + b) && Run(s, cfg, a + b) == Run(Run(s, cfg, a), cfg, b)
    decreases |a|
  {
    hide PoolRuns.Step;
    if a == [] {
      assert a + b == b;
    } else {
      assert (a + b)[0] == a[0] && (a + b)[1..] == a[1..] + b;
      RunAppend(PoolRuns.Step(s, cfg, a[0]), cfg, a[1..], b);
    }
  }

  lemma AttemptIsCalls(s: State, cfg: Config, a: Attempt, i: nat)
    requires 0.0 <= a.r < 1.0 && i < |s.entries|
    ensures WellFormedRun(CallsOf(a, s.entries[i].id)) && Run(s, cfg, CallsOf(a, s.entries[i].id)) == AfterAttempt(s, cfg, a, i)
  {
    hide ClassifyError, HealthyBelow, Scan, Earliest;
    if a.reply.Threw? { AbortedIff(a.reply.error); }
    var calls := CallsOf(a, s.entries[i].id);
    var one, n := calls[1..], Next(s, cfg, a.pick, a.r).0;
    assert one == [calls[1]] && one[1..] == [];
    assert Run(s, cfg, calls) == Run(n, cfg, one);
    assert Run(n, cfg, one) == Run(PoolRuns.Step(n, cfg, one[0]), cfg, []);
    assert PoolRuns.Step(n, cfg, one[0]) == AfterAttempt(s, cfg, a, i);
  }

  /** The pool a request leaves behind is what its calls make of it, one next() and one report()
      per attempt, a success included. */
  lemma {:induction false} LoopReportsEachAttempt(s: State, cfg: Config, env: seq<Attempt>, attempted: set<string>)
    requires Drawable(env) && s.entries != []
    ensures Loop(s, cfg, env, attempted).0 == Run(s, cfg, CallsMade(s, cfg, env))
    decreases |env|
  {
    if env != [] {
      hide Next, AfterAttempt, ClassifyError, Run;
      NextInRange(s, cfg, env[0].pick, env[0].r);
      var a, i := env[0], Next(s, cfg, env[0].pick, env[0].r).1.value;
      var s' := AfterAttempt(s, cfg, a, i);
      AttemptIsCalls(s, cfg, a, i);
      DrawableTail(env);
      if a.reply.Threw? { AbortedIff(a.reply.error); }
      if a.reply.Threw? && !AbortLike(a.reply.error) {
        SameIds(s, cfg, a, i);
        LoopReportsEachAttempt(s', cfg, env[1..], attempted + {s.entries[i].id});
        RunAppend(s, cfg, CallsOf(a, s.entries[i].id), CallsMade(s', cfg, env[1..]));
      }
    } else {
      assert Run(s, cfg, []) == s;
    }
  }
}
