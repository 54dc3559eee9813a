/** The sliding-window limiter: the script's effect on one sorted set per scope, with key
    expiry, and the result computed from it. */
module RateLimiter {
  import opened Wrappers

  /** A request id: its score is the clock reading it starts with. */
  datatype Member = Member(score: int, draw: nat)

  /** A stored sorted set; the key may be dropped once its expiry time is reached. */
  datatype Key = Key(members: set<Member>, expireAt: Option<int>)

  datatype Limits = Limits(window: int, limit: int)

  /** One execution of the script: the clock reading passed in, the random number drawn, and
      whether Redis had already dropped the key. */
  datatype Call = Call(now: int, draw: nat, dropped: bool)

  datatype Verdict = Allowed(remaining: int) | Denied(oldest: int)

  const Empty := Key({}, None)

  // ----- The script -----

  function Trim(ms: set<Member>, cutoff: int): (r: set<Member>)
    ensures forall m :: m in r <==> m in ms && m.score > cutoff
  {
    set m | m in ms && m.score > cutoff
  }

  /** The key as the script finds it after removing what left the window. */
  function Found(k: Key, l: Limits, c: Call): set<Member> {
    Trim(if c.dropped then {} else k.members, c.now - l.window)
  }

  /** The smallest score, what ZRANGE 0 0 WITHSCORES reports. */
  ghost predicate IsOldest(ms: set<Member>, score: int) {
    (exists m :: m in ms && m.score == score) && forall m | m in ms :: score <= m.score
  }

  /** What one execution leaves behind and answers. */
  ghost predicate Executes(k: Key, l: Limits, c: Call, k': Key, v: Verdict) {
    var found := Found(k, l, c);
    if |found| < l.limit then
      && v == Allowed(l.limit - |found| - 1)
      && k' == Key(found + {Member(c.now, c.draw)}, Some(c.now + l.window))
    else
      && v.Denied? && (found != {} ==> IsOldest(found, v.oldest))
      && k' == Key(found, if c.dropped then None else k.expireAt)
  }

  method OldestScore(ms: set<Member>) returns (score: int)
    requires ms != {}
    ensures IsOldest(ms, score)
  {
    var m :| m in ms;
    score := m.score;
    var rest := ms - {m};
    while rest != {}
      invariant rest <= ms
      invariant exists x :: x in ms && x.score == score
      invariant forall x | x in ms - rest :: score <= x.score
      decreases rest
    {
      var x :| x in rest;
      if x.score < score { score := x.score; }
      rest := rest - {x};
    }
  }

  // ----- The limiter -----

  datatype CheckResult = CheckResult(
    allowed: bool, limit: int, remaining: int, resetAtMs: int, retryAfterSec: Option<int>)

  datatype ValidationError = BadLimit | BadWindow

  /** Least integer not below x / 1000. */
  function CeilSeconds(ms: int): int {
    -((-ms) / 1000)
  }

  function Answer(l: Limits, now: int, v: Verdict): CheckResult {
    match v
    case Allowed(remaining) => CheckResult(true, l.limit, remaining, now + l.window, None)
    case Denied(oldest) =>
      var reset := oldest + l.window;
      var secs := CeilSeconds(reset - now);
      CheckResult(false, l.limit, 0, reset, Some(if secs < 1 then 1 else secs))
  }

  /** One call of check(): what it leaves stored and answers. */
  ghost predicate Serves(k: Key, l: Limits, c: Call, k': Key, a: CheckResult) {
    exists v: Verdict :: Executes(k, l, c, k', v) && a == Answer(l, c.now, v)
  }

  /** secs is the least whole number of seconds, at least one, after which reset is reached. */
  predicate LeastWait(now: int, reset: int, secs: int) {
    secs >= 1 && now + 1000 * secs >= reset && (secs > 1 ==> now + 1000 * (secs - 1) < reset)
  }

  /** What an answer says about the requests found in the window. */
  ghost predicate Reports(found: set<Member>, l: Limits, now: int, a: CheckResult) {
    && a.limit == l.limit
    && (a.allowed <==> |found| < l.limit)
    && a.remaining == (if a.allowed then l.limit - |found| - 1 else 0)
    && (a.allowed ==> a.resetAtMs == now + l.window && a.retryAfterSec == None)
    && (!a.allowed ==>
          && IsOldest(found, a.resetAtMs - l.window)
          && a.retryAfterSec.Some? && LeastWait(now, a.resetAtMs, a.retryAfterSec.value))
  }

  lemma AnswerReports(k: Key, l: Limits, c: Call, k': Key, v: Verdict)
    requires l.limit >= 1 && Executes(k, l, c, k', v)
    ensures Reports(Found(k, l, c), l, c.now, Answer(l, c.now, v))
  {
    var found := Found(k, l, c);
    if |found| >= l.limit { assert found != {}; }
  }

  class Limiter {
    var keys: map<string, Key>

    constructor ()
      ensures keys == map[]
    {
      keys := map[];
    }

    function At(scope: string): Key
      reads this
    {
      if scope in keys then keys[scope] else Empty
    }

    method Script(scope: string, l: Limits, c: Call) returns (v: Verdict)
      requires l.limit >= 1
      modifies this
      ensures Executes(old(At(scope)), l, c, At(scope), v)
      ensures forall s | s != scope :: At(s) == old(At(s))
    {
      hide Reports, Serves;
      var key := At(scope);
      if c.dropped { key := Empty; }
      var members := Trim(key.members, c.now - l.window);
      assert members == Found(At(scope), l, c);
      var count := |members|;
      if count < l.limit {
        members := members + {Member(c.now, c.draw)};
        keys := keys[scope := Key(members, Some(c.now + l.window))];
        return Allowed(l.limit - count - 1);
      } else {
        var oldest := OldestScore(members);
        keys := keys[scope := Key(members, key.expireAt)];
        return Denied(oldest);
      }
    }

    method Check(scope: string, l: Limits, c: Call) returns (r: Result<CheckResult, ValidationError>)
      modifies this
      ensures r.Failure? <==> l.limit < 1 || l.window < 1
      ensures r.Failure? ==> keys == old(keys) && r.error == if l.limit < 1 then BadLimit else BadWindow
      ensures r.Success? ==> Serves(old(At(scope)), l, c, At(scope), r.value)
      ensures r.Success? ==>
                var found := Found(old(At(scope)), l, c);
                && Reports(found, l, c.now, r.value)
                && At(scope).members == found + if r.value.allowed then {Member(c.now, c.draw)} else {}
      ensures forall s | s != scope :: At(s) == old(At(s))
    {
      if l.limit < 1 { return Failure(BadLimit); }
      if l.window < 1 { return Failure(BadWindow); }
      ghost var before := At(scope);
      var v := Script(scope, l, c);
      AnswerReports(before, l, c, At(scope), v);
      return Success(Answer(l, c.now, v));
    }
  }
}
