/** The limiter as its callers see it: whole runs of check() on one scope, stated on the answers. */
module LimiterAnswers {
  import opened Wrappers
  import opened RateLimiter
  import opened RateLimiterRuns

  /** Calls of check() on a fresh scope and their answers. The clock does not go back, and Redis
      drops the key only at or after its expiry. */
  ghost predicate Served(keys: seq<Key>, l: Limits, cs: seq<Call>, rs: seq<CheckResult>) {
    && |keys| == |cs| + 1 == |rs| + 1 && keys[0] == Empty
    && (forall i | 0 <= i < |cs| - 1 :: cs[i].now <= cs[i + 1].now)
    && (forall i | 0 <= i < |cs| && cs[i].dropped :: keys[i].expireAt.Some? && keys[i].expireAt.value <= cs[i].now)
    && (forall i | 0 <= i < |cs| :: Serves(keys[i], l, cs[i], keys[i + 1], rs[i]))
  }

  /** How many of the first n calls were allowed in the window (t - w, t]. */
  function AllowedWithin(cs: seq<Call>, rs: seq<CheckResult>, n: nat, t: int, w: int): nat
    requires n <= |cs| == |rs|
  {
    if n == 0 then 0
    else AllowedWithin(cs, rs, n - 1, t, w) + if rs[n - 1].allowed && t - w < cs[n - 1].now <= t then 1 else 0
  }

  /** No two allowed calls of one millisecond drew the same number. */
  ghost predicate DrawsDiffer(cs: seq<Call>, rs: seq<CheckResult>)
    requires |cs| == |rs|
  {
    forall i, j | 0 <= i < j < |cs| && rs[i].allowed && rs[j].allowed && cs[i].now == cs[j].now :: cs[i].draw != cs[j].draw
  }

  // ----- A run of answers is a run of the script -----

  function AllowedLog(cs: seq<Call>, rs: seq<CheckResult>, n: nat): seq<Member>
    requires n <= |cs| == |rs|
  {
    if n == 0 then []
    else if rs[n - 1].allowed then AllowedLog(cs, rs, n - 1) + [Member(cs[n - 1].now, cs[n - 1].draw)]
    else AllowedLog(cs, rs, n - 1)
  }

  function VerdictOf(l: Limits, a: CheckResult): Verdict {
    if a.allowed then Allowed(a.remaining) else Denied(a.resetAtMs - l.window)
  }

  lemma AnswerOfVerdict(l: Limits, now: int, v: Verdict)
    ensures VerdictOf(l, Answer(l, now, v)) == v && (Answer(l, now, v).allowed <==> v.Allowed?)
  {
  }

  function RunAt(keys: seq<Key>, cs: seq<Call>, rs: seq<CheckResult>, i: nat): Run
    requires i < |keys| == |cs| + 1 == |rs| + 1
  {
    Run(keys[i], AllowedLog(cs, rs, i), if i > 0 then cs[i - 1].now else if cs != [] then cs[0].now else 0)
  }

  lemma ServedIsRun(keys: seq<Key>, l: Limits, cs: seq<Call>, rs: seq<CheckResult>)
    returns (runs: seq<Run>, vs: seq<Verdict>)
    requires Served(keys, l, cs, rs)
    ensures |runs| == |keys| == |cs| + 1 == |rs| + 1 == |vs| + 1 && IsRun(runs, l, cs, vs)
    ensures forall i | 0 <= i < |runs| :: runs[i] == RunAt(keys, cs, rs, i)
    ensures forall i | 0 <= i < |cs| :: rs[i] == Answer(l, cs[i].now, vs[i]) && (rs[i].allowed <==> vs[i].Allowed?)
  {
    hide Executes, Answer;
    runs := seq(|keys|, i requires 0 <= i < |keys| => RunAt(keys, cs, rs, i));
    vs := seq(|cs|, i requires 0 <= i < |cs| => VerdictOf(l, rs[i]));
    forall i | 0 <= i < |cs|
      ensures Steps(runs[i], l, cs[i], runs[i + 1], vs[i])
      ensures rs[i] == Answer(l, cs[i].now, vs[i]) && (rs[i].allowed <==> vs[i].Allowed?)
    {
      assert Serves(keys[i], l, cs[i], keys[i + 1], rs[i]);
      var v :| Executes(keys[i], l, cs[i], keys[i + 1], v) && rs[i] == Answer(l, cs[i].now, v);
      AnswerOfVerdict(l, cs[i].now, v);
      if i > 0 { assert cs[i - 1].now <= cs[i - 1 + 1].now; }
    }
  }

  // ----- Counting answers and counting the log agree -----

  lemma {:induction false} LogCounts(cs: seq<Call>, rs: seq<CheckResult>, n: nat, t: int, w: int)
    requires n <= |cs| == |rs|
    ensures InWindow(AllowedLog(cs, rs, n), t, w) == AllowedWithin(cs, rs, n, t, w)
  {
    if n > 0 {
      LogCounts(cs, rs, n - 1, t, w);
      Snoc(AllowedLog(cs, rs, n - 1), Member(cs[n - 1].now, cs[n - 1].draw));
    }
  }

  lemma {:induction false} LogCountsAfter(cs: seq<Call>, rs: seq<CheckResult>, n: nat, t: int, w: int)
    requires n <= |cs| == |rs| && forall k | 0 <= k < n :: cs[k].now <= t
    ensures After(AllowedLog(cs, rs, n), t - w) == AllowedWithin(cs, rs, n, t, w)
  {
    if n > 0 {
      LogCountsAfter(cs, rs, n - 1, t, w);
      Snoc(AllowedLog(cs, rs, n - 1), Member(cs[n - 1].now, cs[n - 1].draw));
    }
  }

  lemma {:induction false} InLog(cs: seq<Call>, rs: seq<CheckResult>, n: nat, m: Member) returns (k: nat)
    requires n <= |cs| == |rs| && m in AllowedLog(cs, rs, n)
    ensures k < n && rs[k].allowed && m == Member(cs[k].now, cs[k].draw)
  {
    if m in AllowedLog(cs, rs, n - 1) {
      k := InLog(cs, rs, n - 1, m);
    } else {
      k := n - 1;
    }
  }

  lemma {:induction false} LogDistinct(cs: seq<Call>, rs: seq<CheckResult>, n: nat, cutoff: int)
    requires n <= |cs| == |rs| && DrawsDiffer(cs, rs)
    ensures DistinctMembers(AllowedLog(cs, rs, n), cutoff)
  {
    if n > 0 {
      LogDistinct(cs, rs, n - 1, cutoff);
      var before, m := AllowedLog(cs, rs, n - 1), Member(cs[n - 1].now, cs[n - 1].draw);
      Snoc(before, m);
      if rs[n - 1].allowed && m in before {
        var k := InLog(cs, rs, n - 1, m);
        assert false;
      }
    }
  }

  lemma {:induction false} ClockForward(cs: seq<Call>, i: nat, j: nat)
    requires i <= j < |cs| && forall k | 0 <= k < |cs| - 1 :: cs[k].now <= cs[k + 1].now
    ensures cs[i].now <= cs[j].now
  {
    if i < j {
      ClockForward(cs, i, j - 1);
      assert cs[j - 1].now <= cs[j - 1 + 1].now;
    }
  }

  // ----- The answers of a run -----

  /** Each answer is the one the calls allowed so far in the window (now - w, now] call for. Without
      the proviso on draws requests may go uncounted but are never counted twice. */
  lemma AnswersCountAllowed(keys: seq<Key>, l: Limits, cs: seq<Call>, rs: seq<CheckResult>, i: nat)
    requires Served(keys, l, cs, rs) && l.limit >= 1 && l.window >= 1 && i < |cs|
    ensures var h := AllowedWithin(cs, rs, i, cs[i].now, l.window);
            && (h < l.limit ==> rs[i].allowed)
            && (DrawsDiffer(cs, rs) ==>
                  && (rs[i].allowed <==> h < l.limit)
                  && rs[i].remaining == if h < l.limit then l.limit - h - 1 else 0)
  {
    hide Executes, Answer, DrawsDiffer, Steps, Served, IsRun, Found, After, DistinctMembers, AllowedLog, AllowedWithin;
    var runs, vs := ServedIsRun(keys, l, cs, rs);
    DecidesAsFullHistory(runs, l, cs, vs, i);
    StepReports(runs[i], l, cs[i], runs[i + 1], vs[i]);
    ServedCounts(keys, l, cs, rs, i);
    if DrawsDiffer(cs, rs) { LogDistinct(cs, rs, i, cs[i].now - l.window); }
  }

  lemma ServedCounts(keys: seq<Key>, l: Limits, cs: seq<Call>, rs: seq<CheckResult>, i: nat)
    requires Served(keys, l, cs, rs) && i < |cs|
    ensures After(AllowedLog(cs, rs, i), cs[i].now - l.window) == AllowedWithin(cs, rs, i, cs[i].now, l.window)
  {
    hide Serves, After, AllowedLog, AllowedWithin;
    forall k | 0 <= k < i
      ensures cs[k].now <= cs[i].now
    {
      ClockForward(cs, k, i);
    }
    LogCountsAfter(cs, rs, i, cs[i].now, l.window);
  }

  lemma StepReports(r: Run, l: Limits, c: Call, r': Run, v: Verdict)
    requires l.limit >= 1 && Steps(r, l, c, r', v)
    ensures Reports(Found(r.key, l, c), l, c.now, Answer(l, c.now, v))
  {
    hide Executes, Answer;
    AnswerReports(r.key, l, c, r'.key, v);
  }

  /** No window of the configured length ever holds more than limit allowed calls. */
  ghost predicate WindowsHold(l: Limits, cs: seq<Call>, rs: seq<CheckResult>)
    requires |cs| == |rs|
  {
    forall t: int :: AllowedWithin(cs, rs, |cs|, t, l.window) <= l.limit
  }

  lemma AllowedCallsBounded(keys: seq<Key>, l: Limits, cs: seq<Call>, rs: seq<CheckResult>)
    requires Served(keys, l, cs, rs) && l.limit >= 1 && l.window >= 1 && DrawsDiffer(cs, rs)
    ensures WindowsHold(l, cs, rs)
  {
    hide Steps, DrawsDiffer, IsRun, Served, Answer, FreshDraws, WindowSafe, WindowsHold;
    var runs, vs := ServedIsRun(keys, l, cs, rs);
    DrawsFresh(keys, l, cs, rs, runs);
    SlidingWindowSafety(runs, l, cs, vs, |cs|);
    SafeLogHolds(keys, l, cs, rs, runs);
  }

  lemma DrawsFresh(keys: seq<Key>, l: Limits, cs: seq<Call>, rs: seq<CheckResult>, runs: seq<Run>)
    requires |keys| == |runs| == |cs| + 1 == |rs| + 1 && DrawsDiffer(cs, rs)
    requires forall i | 0 <= i < |runs| :: runs[i] == RunAt(keys, cs, rs, i)
    ensures FreshDraws(runs, l, cs)
  {
    hide DrawsDiffer, DistinctMembers, AllowedLog;
    forall i | 0 <= i < |cs|
      ensures DistinctMembers(runs[i].log, cs[i].now - l.window)
    {
      LogDistinct(cs, rs, i, cs[i].now - l.window);
    }
  }

  lemma SafeLogHolds(keys: seq<Key>, l: Limits, cs: seq<Call>, rs: seq<CheckResult>, runs: seq<Run>)
    requires |keys| == |runs| == |cs| + 1 == |rs| + 1
    requires runs[|cs|] == RunAt(keys, cs, rs, |cs|) && WindowSafe(runs[|cs|].log, l)
    ensures WindowsHold(l, cs, rs)
  {
    forall t: int
      ensures AllowedWithin(cs, rs, |cs|, t, l.window) <= l.limit
    {
      LogCounts(cs, rs, |cs|, t, l.window);
      assert InWindow(runs[|cs|].log, t, l.window) <= l.limit;
    }
  }

  /** Whatever is drawn, the bound holds for every run iff the limit is one. */
  lemma BoundedForAllDrawsIff(l: Limits)
    requires l.limit >= 1 && l.window >= 1
    ensures (forall keys: seq<Key>, cs: seq<Call>, rs: seq<CheckResult> | Served(keys, l, cs, rs) :: WindowsHold(l, cs, rs))
       <==> l.limit == 1
  {
    if l.limit == 1 {
      SafeForAllDrawsIff(l);
      forall keys: seq<Key>, cs: seq<Call>, rs: seq<CheckResult> | Served(keys, l, cs, rs)
        ensures WindowsHold(l, cs, rs)
      {
        var runs, vs := ServedIsRun(keys, l, cs, rs);
        SafeLogHolds(keys, l, cs, rs, runs);
      }
    } else {
      var keys, rs := CollisionServed(l, l.limit + 1);
    }
  }

  /** limit + 1 calls in one millisecond that draw the same number are all allowed. */
  lemma CollisionServed(l: Limits, n: nat) returns (keys: seq<Key>, rs: seq<CheckResult>)
    requires n == l.limit + 1 && l.limit >= 2 && l.window >= 1
    ensures Served(keys, l, Collision(n), rs) && !WindowsHold(l, Collision(n), rs)
  {
    hide Executes;
    var runs, cs, vs := CollisionRun(l, n), Collision(n), CollisionVerdicts(l, n);
    CollisionIsRun(l, n);
    keys := seq(n + 1, i requires 0 <= i < n + 1 => runs[i].key);
    rs := seq(n, i requires 0 <= i < n => Answer(l, 0, vs[i]));
    forall i | 0 <= i < n
      ensures Serves(keys[i], l, cs[i], keys[i + 1], rs[i])
    {
      assert Steps(runs[i], l, cs[i], runs[i + 1], vs[i]);
    }
    AllAllowed(l, cs, rs, n);
    assert AllowedWithin(cs, rs, |cs|, 0, l.window) == n;
  }

  lemma {:induction false} AllAllowed(l: Limits, cs: seq<Call>, rs: seq<CheckResult>, n: nat)
    requires n <= |cs| == |rs| && l.window >= 1 && forall i | 0 <= i < n :: rs[i].allowed && cs[i].now == 0
    ensures AllowedWithin(cs, rs, n, 0, l.window) == n
  {
    if n > 0 {
      AllAllowed(l, cs, rs, n - 1);
    }
  }

  /** After a refusal and as long as nobody has been let in, a call is allowed iff it comes at or
      after the reported reset time; a caller that waits the reported seconds is let in. */
  lemma RefusalHintExact(keys: seq<Key>, l: Limits, cs: seq<Call>, rs: seq<CheckResult>, i: nat, j: nat)
    requires Served(keys, l, cs, rs) && l.limit >= 1 && l.window >= 1 && i < j < |cs|
    requires forall k | i <= k < j :: !rs[k].allowed
    ensures rs[j].allowed <==> cs[j].now >= rs[i].resetAtMs
    ensures rs[i].retryAfterSec.Some? && LeastWait(cs[i].now, rs[i].resetAtMs, rs[i].retryAfterSec.value)
    ensures cs[j].now >= cs[i].now + 1000 * rs[i].retryAfterSec.value ==> rs[j].allowed
  {
    hide Executes, Answer, Steps;
    var runs, vs := ServedIsRun(keys, l, cs, rs);
    HintExact(runs, l, cs, vs, i, j);
    DecidesAsFullHistory(runs, l, cs, vs, i);
    StepReports(runs[i], l, cs[i], runs[i + 1], vs[i]);
  }
}
