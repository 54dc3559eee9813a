/** The limiter over whole runs, compared with one that remembers every accepted request. */
module RateLimiterRuns {
  import opened Sets
  import opened Wrappers
  import opened RateLimiter

  /** A key together with everything ever accepted and the latest clock reading. */
  datatype Run = Run(key: Key, log: seq<Member>, clock: int)

  /** The clock does not go back, and a key is only dropped at or after its expiry. */
  ghost predicate Permitted(r: Run, c: Call) {
    && r.clock <= c.now
    && (c.dropped ==> r.key.expireAt.Some? && r.key.expireAt.value <= c.now)
  }

  ghost predicate Steps(r: Run, l: Limits, c: Call, r': Run, v: Verdict) {
    && Permitted(r, c)
    && Executes(r.key, l, c, r'.key, v)
    && r'.clock == c.now
    && r'.log == if v.Allowed? then r.log + [Member(c.now, c.draw)] else r.log
  }

  /** The states and calls of a run: runs[0] is a fresh key. */
  ghost predicate IsRun(runs: seq<Run>, l: Limits, cs: seq<Call>, vs: seq<Verdict>) {
    && |runs| == |cs| + 1 == |vs| + 1
    && runs[0].key == Empty && runs[0].log == []
    && forall i | 0 <= i < |cs| :: Steps(runs[i], l, cs[i], runs[i + 1], vs[i])
  }

  // ----- Full history -----

  function Init(log: seq<Member>): seq<Member>
    requires log != []
  {
    log[..|log| - 1]
  }

  function Last(log: seq<Member>): Member
    requires log != []
  {
    log[|log| - 1]
  }

  lemma Snoc(log: seq<Member>, m: Member)
    ensures Init(log + [m]) == log && Last(log + [m]) == m
  {
  }

  /** How many accepted requests have a score above the cutoff. */
  function After(log: seq<Member>, cutoff: int): nat {
    if log == [] then 0 else After(Init(log), cutoff) + if Last(log).score > cutoff then 1 else 0
  }

  function Recent(log: seq<Member>, cutoff: int): (s: set<Member>)
    ensures forall m :: m in s <==> m in log && m.score > cutoff
  {
    Trim((set m | m in log), cutoff)
  }

  /** Accepted requests in the half-open window (t - w, t]. */
  function InWindow(log: seq<Member>, t: int, w: int): nat {
    if log == [] then 0 else InWindow(Init(log), t, w) + if t - w < Last(log).score <= t then 1 else 0
  }

  /** No two requests accepted after the cutoff share a member. */
  ghost predicate DistinctMembers(log: seq<Member>, cutoff: int) {
    log == [] || (DistinctMembers(Init(log), cutoff) && (Last(log).score > cutoff ==> Last(log) !in Init(log)))
  }

  // ----- The invariant -----

  /** Everything accepted and still in the window is stored, nothing else is; expiry comes
      no earlier than the last accepted request leaves the window. */
  ghost predicate Tracks(r: Run, l: Limits) {
    && (forall m | m in r.key.members :: m in r.log)
    && (forall m | m in r.log :: m.score <= r.clock)
    && (forall m | m in r.log && m.score > r.clock - l.window :: m in r.key.members)
    && (forall m | m in r.log && r.key.expireAt.Some? :: m.score + l.window <= r.key.expireAt.value)
    && |r.key.members| <= l.limit
  }

  lemma StartTracks(r: Run, l: Limits)
    requires r.key == Empty && r.log == [] && l.limit >= 1
    ensures Tracks(r, l)
  {
  }

  /** The trimmed, possibly dropped set is exactly the recent part of the full history. */
  lemma FoundIsRecent(r: Run, l: Limits, c: Call)
    requires Tracks(r, l) && Permitted(r, c)
    ensures Found(r.key, l, c) == Recent(r.log, c.now - l.window)
  {
  }

  lemma StepKeepsTracks(r: Run, l: Limits, c: Call, r': Run, v: Verdict)
    requires Tracks(r, l) && Steps(r, l, c, r', v) && l.window >= 1
    ensures Tracks(r', l)
  {
    FoundIsRecent(r, l, c);
    SubsetSize(Found(r.key, l, c), if c.dropped then {} else r.key.members);
    if v.Denied? && c.dropped {
      assert Found(r.key, l, c) == {};
    }
  }

  lemma {:induction false} RunTracks(runs: seq<Run>, l: Limits, cs: seq<Call>, vs: seq<Verdict>, i: nat)
    requires IsRun(runs, l, cs, vs) && l.limit >= 1 && l.window >= 1 && i < |runs|
    ensures Tracks(runs[i], l)
  {
    if i == 0 {
      StartTracks(runs[0], l);
    } else {
      RunTracks(runs, l, cs, vs, i - 1);
      StepKeepsTracks(runs[i - 1], l, cs[i - 1], runs[i], vs[i - 1]);
    }
  }

  // ----- Counting the history -----

  /** The stored set never over-counts, and counts exactly when recent members differ. */
  lemma {:induction false} RecentCounts(log: seq<Member>, cutoff: int)
    ensures |Recent(log, cutoff)| <= After(log, cutoff)
    ensures |Recent(log, cutoff)| == After(log, cutoff) <==> DistinctMembers(log, cutoff)
  {
    if log == [] {
      assert Recent(log, cutoff) == {};
    } else {
      var init, m := Init(log), Last(log);
      RecentCounts(init, cutoff);
      RecentSnoc(init, m, cutoff);
      assert log == init + [m];
    }
  }

  lemma RecentSnoc(init: seq<Member>, m: Member, cutoff: int)
    ensures Recent(init + [m], cutoff) == Recent(init, cutoff) + if m.score > cutoff then {m} else {}
  {
  }

  /** At any call of any run: the decision is the one the full history gives, when no two
      accepted requests in the window share a member. */
  lemma DecidesAsFullHistory(runs: seq<Run>, l: Limits, cs: seq<Call>, vs: seq<Verdict>, i: nat)
    requires IsRun(runs, l, cs, vs) && l.limit >= 1 && l.window >= 1 && i < |cs|
    ensures Steps(runs[i], l, cs[i], runs[i + 1], vs[i])
    ensures var n := |Found(runs[i].key, l, cs[i])|; var h := After(runs[i].log, cs[i].now - l.window);
            && n <= h && (n == h <==> DistinctMembers(runs[i].log, cs[i].now - l.window))
            && (vs[i].Allowed? <==> n < l.limit)
            && (DistinctMembers(runs[i].log, cs[i].now - l.window) ==> (vs[i].Allowed? <==> h < l.limit))
  {
    assert Steps(runs[i], l, cs[i], runs[i + 1], vs[i]);
    RunTracks(runs, l, cs, vs, i);
    FoundIsRecent(runs[i], l, cs[i]);
    RecentCounts(runs[i].log, cs[i].now - l.window);
  }

  // ----- Safety -----

  /** Each accepted request found fewer than `limit` accepted ones in its own window. */
  ghost predicate Paced(log: seq<Member>, l: Limits) {
    log == [] || (Paced(Init(log), l) && After(Init(log), Last(log).score - l.window) < l.limit)
  }

  ghost predicate WindowSafe(log: seq<Member>, l: Limits) {
    forall t: int :: InWindow(log, t, l.window) <= l.limit
  }

  lemma {:induction false} WindowWithinAfter(log: seq<Member>, t: int, w: int, cutoff: int)
    requires cutoff <= t - w
    ensures InWindow(log, t, w) <= After(log, cutoff)
  {
    if log != [] {
      WindowWithinAfter(Init(log), t, w, cutoff);
    }
  }

  lemma {:induction false} PacedIsSafe(log: seq<Member>, l: Limits, t: int)
    requires Paced(log, l) && l.limit >= 0
    ensures InWindow(log, t, l.window) <= l.limit
  {
    if log != [] {
      PacedIsSafe(Init(log), l, t);
      if t - l.window < Last(log).score <= t {
        WindowWithinAfter(Init(log), t, l.window, Last(log).score - l.window);
      }
    }
  }

  lemma PacedStep(log: seq<Member>, l: Limits, m: Member)
    requires Paced(log, l) && After(log, m.score - l.window) < l.limit
    ensures Paced(log + [m], l)
  {
    Snoc(log, m);
  }

  /** Members drawn in a run never repeat one still in the window. */
  ghost predicate FreshDraws(runs: seq<Run>, l: Limits, cs: seq<Call>)
    requires |runs| == |cs| + 1
  {
    forall i | 0 <= i < |cs| :: DistinctMembers(runs[i].log, cs[i].now - l.window)
  }

  lemma {:induction false} RunPaced(runs: seq<Run>, l: Limits, cs: seq<Call>, vs: seq<Verdict>, i: nat)
    requires IsRun(runs, l, cs, vs) && l.limit >= 1 && l.window >= 1 && i < |runs| && FreshDraws(runs, l, cs)
    ensures Paced(runs[i].log, l)
  {
    if i > 0 {
      hide Executes, Tracks, Found, After, Paced, DistinctMembers;
      RunPaced(runs, l, cs, vs, i - 1);
      DecidesAsFullHistory(runs, l, cs, vs, i - 1);
      var before, c := runs[i - 1].log, cs[i - 1];
      assert DistinctMembers(before, c.now - l.window);
      if vs[i - 1].Allowed? { PacedStep(before, l, Member(c.now, c.draw)); }
    }
  }

  /** On every run with a clock that does not go back and fresh members: no window of the
      configured length ever holds more accepted calls than the limit. */
  lemma SlidingWindowSafety(runs: seq<Run>, l: Limits, cs: seq<Call>, vs: seq<Verdict>, i: nat)
    requires IsRun(runs, l, cs, vs) && l.limit >= 1 && l.window >= 1 && i < |runs| && FreshDraws(runs, l, cs)
    ensures WindowSafe(runs[i].log, l)
  {
    RunPaced(runs, l, cs, vs, i);
    forall t: int
      ensures InWindow(runs[i].log, t, l.window) <= l.limit
    {
      PacedIsSafe(runs[i].log, l, t);
    }
  }

  // ----- Without fresh members -----

  /** A limit of one needs no freshness: an empty window cannot be miscounted. */
  lemma {:induction false} RunPacedOne(runs: seq<Run>, l: Limits, cs: seq<Call>, vs: seq<Verdict>, i: nat)
    requires IsRun(runs, l, cs, vs) && l.limit == 1 && l.window >= 1 && i < |runs|
    ensures Paced(runs[i].log, l)
  {
    if i > 0 {
      hide Executes, Tracks;
      RunPacedOne(runs, l, cs, vs, i - 1);
      OneDecides(runs, l, cs, vs, i - 1);
      Snoc(runs[i - 1].log, Member(cs[i - 1].now, cs[i - 1].draw));
    }
  }

  lemma OneDecides(runs: seq<Run>, l: Limits, cs: seq<Call>, vs: seq<Verdict>, i: nat)
    requires IsRun(runs, l, cs, vs) && l.limit == 1 && l.window >= 1 && i < |cs|
    ensures Steps(runs[i], l, cs[i], runs[i + 1], vs[i])
    ensures vs[i].Allowed? ==> After(runs[i].log, cs[i].now - l.window) == 0
  {
    hide Executes, Tracks;
    DecidesAsFullHistory(runs, l, cs, vs, i);
    RunTracks(runs, l, cs, vs, i);
    FoundIsRecent(runs[i], l, cs[i]);
    NothingRecent(runs[i].log, cs[i].now - l.window);
  }

  lemma {:induction false} NothingRecent(log: seq<Member>, cutoff: int)
    ensures |Recent(log, cutoff)| == 0 ==> After(log, cutoff) == 0
  {
    if log != [] && |Recent(log, cutoff)| == 0 {
      assert log == Init(log) + [Last(log)];
      RecentSnoc(Init(log), Last(log), cutoff);
      NothingRecent(Init(log), cutoff);
    }
  }

  /** The same millisecond and the same draw, over and over. */
  function Collision(n: nat): seq<Call> {
    seq(n, _ => Call(0, 0, false))
  }

  function CollisionLog(n: nat): seq<Member> {
    seq(n, _ => Member(0, 0))
  }

  function CollisionRun(l: Limits, n: nat): seq<Run> {
    seq(n + 1, i requires 0 <= i =>
      Run(if i == 0 then Empty else Key({Member(0, 0)}, Some(l.window)), CollisionLog(i), 0))
  }

  function CollisionVerdicts(l: Limits, n: nat): seq<Verdict> {
    seq(n, i => Allowed(if i == 0 then l.limit - 1 else l.limit - 2))
  }

  lemma CollisionIsRun(l: Limits, n: nat)
    requires l.limit >= 2 && l.window >= 1
    ensures IsRun(CollisionRun(l, n), l, Collision(n), CollisionVerdicts(l, n))
  {
    var runs, cs, vs := CollisionRun(l, n), Collision(n), CollisionVerdicts(l, n);
    forall i | 0 <= i < n
      ensures Steps(runs[i], l, cs[i], runs[i + 1], vs[i])
    {
      var found := Found(runs[i].key, l, cs[i]);
      assert found == if i == 0 then {} else {Member(0, 0)};
      assert CollisionLog(i + 1) == CollisionLog(i) + [Member(0, 0)];
    }
  }

  lemma {:induction false} CollisionFillsWindow(n: nat, w: int)
    requires w >= 1
    ensures InWindow(CollisionLog(n), 0, w) == n
  {
    if n > 0 {
      CollisionFillsWindow(n - 1, w);
      assert Init(CollisionLog(n)) == CollisionLog(n - 1);
    }
  }

  /** Whatever the random draws, the window bound holds on every run exactly when the limit
      is one: with a larger limit, repeating a member is not counted. */
  lemma SafeForAllDrawsIff(l: Limits)
    requires l.limit >= 1 && l.window >= 1
    ensures (forall runs: seq<Run>, cs: seq<Call>, vs: seq<Verdict>, i: nat |
               IsRun(runs, l, cs, vs) && i < |runs| :: WindowSafe(runs[i].log, l))
       <==> l.limit == 1
  {
    if l.limit == 1 {
      forall runs: seq<Run>, cs: seq<Call>, vs: seq<Verdict>, i: nat | IsRun(runs, l, cs, vs) && i < |runs|
        ensures WindowSafe(runs[i].log, l)
      {
        RunPacedOne(runs, l, cs, vs, i);
        forall t: int
          ensures InWindow(runs[i].log, t, l.window) <= l.limit
        {
          PacedIsSafe(runs[i].log, l, t);
        }
      }
    } else {
      var n := l.limit + 1;
      CollisionIsRun(l, n);
      CollisionFillsWindow(n, l.window);
      assert CollisionRun(l, n)[n].log == CollisionLog(n);
      assert !WindowSafe(CollisionRun(l, n)[n].log, l);
    }
  }

  // ----- The hint given with a denial -----

  lemma FullWhenDenied(r: Run, l: Limits, c: Call, r': Run, v: Verdict)
    requires Tracks(r, l) && Steps(r, l, c, r', v) && l.limit >= 1 && v.Denied?
    ensures !c.dropped && |Found(r.key, l, c)| == l.limit
    ensures r'.key == Key(Found(r.key, l, c), r.key.expireAt) && IsOldest(r'.key.members, v.oldest)
  {
    SubsetSize(Found(r.key, l, c), if c.dropped then {} else r.key.members);
    assert c.dropped ==> Found(r.key, l, c) == {};
  }

  /** After a denial, the next call succeeds exactly from oldest + window on; a further
      denial names the same oldest request. */
  lemma RetryExact(r: Run, l: Limits, c: Call, r1: Run, v: Verdict, c2: Call, r2: Run, v2: Verdict)
    requires Tracks(r, l) && l.limit >= 1 && l.window >= 1
    requires Steps(r, l, c, r1, v) && v.Denied? && Steps(r1, l, c2, r2, v2)
    ensures v2.Allowed? <==> c2.now >= v.oldest + l.window
    ensures v2.Denied? ==> v2.oldest == v.oldest
  {
    FullWhenDenied(r, l, c, r1, v);
    StepKeepsTracks(r, l, c, r1, v);
    var ms, found := r1.key.members, Found(r1.key, l, c2);
    var m0 :| m0 in ms && m0.score == v.oldest;
    assert m0 in r1.log;
    if c2.now < v.oldest + l.window {
      assert found == ms;
    } else {
      assert found <= ms - {m0};
      SubsetSize(found, ms - {m0});
    }
  }

  /** In any run: after the denial of call i and as long as nothing has been accepted since,
      call j succeeds iff it comes at or after the reset time that was reported. */
  lemma {:induction false} HintExact(runs: seq<Run>, l: Limits, cs: seq<Call>, vs: seq<Verdict>, i: nat, j: nat)
    requires IsRun(runs, l, cs, vs) && l.limit >= 1 && l.window >= 1 && i < j < |cs|
    requires forall k | i <= k < j :: vs[k].Denied?
    ensures vs[j].Allowed? <==> cs[j].now >= Answer(l, cs[i].now, vs[i]).resetAtMs
    ensures vs[j].Denied? ==> vs[j].oldest == vs[i].oldest
    decreases j
  {
    hide Executes, Tracks, IsOldest, Permitted;
    if j > i + 1 {
      HintExact(runs, l, cs, vs, i, j - 1);
    }
    RunTracks(runs, l, cs, vs, j - 1);
    assert Steps(runs[j - 1], l, cs[j - 1], runs[j - 1 + 1], vs[j - 1]);
    assert Steps(runs[j], l, cs[j], runs[j + 1], vs[j]);
    RetryExact(runs[j - 1], l, cs[j - 1], runs[j], vs[j - 1], cs[j], runs[j + 1], vs[j]);
  }

  /** Waiting the reported number of seconds reaches the reset time, and no smaller number
      of at least one would. */
  lemma SecondsSuffice(l: Limits, now: int, v: Verdict)
    requires v.Denied?
    ensures var a := Answer(l, now, v);
            && a.retryAfterSec.Some? && a.retryAfterSec.value >= 1
            && now + 1000 * a.retryAfterSec.value >= a.resetAtMs
            && (a.retryAfterSec.value > 1 ==> now + 1000 * (a.retryAfterSec.value - 1) < a.resetAtMs)
  {
  }

  /** A client that waits the reported number of seconds is let in, unless someone else was
      first. */
  lemma WaitingSucceeds(runs: seq<Run>, l: Limits, cs: seq<Call>, vs: seq<Verdict>, i: nat, j: nat)
    requires IsRun(runs, l, cs, vs) && l.limit >= 1 && l.window >= 1 && i < j < |cs|
    requires forall k | i <= k < j :: vs[k].Denied?
    ensures var a := Answer(l, cs[i].now, vs[i]);
            a.retryAfterSec.Some? && (cs[j].now >= cs[i].now + 1000 * a.retryAfterSec.value ==> vs[j].Allowed?)
  {
    hide Answer;
    assert vs[i].Denied?;
    HintExact(runs, l, cs, vs, i, j);
    SecondsSuffice(l, cs[i].now, vs[i]);
  }
}
