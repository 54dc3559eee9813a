/** The failover loop over the pool: one request, retried on the next proxy. */
module Egress {
  import opened Wrappers
  import opened ProxyPool

  // ----- Classifying errors -----

  const CONNECT_CODES: set<string> := {
    "ECONNREFUSED", "ECONNRESET", "ETIMEDOUT", "EHOSTUNREACH", "ENETUNREACH", "EAI_AGAIN", "ENOTFOUND", "EPIPE",
    "UND_ERR_CONNECT_TIMEOUT", "UND_ERR_SOCKET", "UND_ERR_CLOSED", "UND_ERR_BODY_TIMEOUT", "UND_ERR_HEADERS_TIMEOUT"
  }

  /** What the loop looks at in a thrown value; the name is absent when it is no Error. */
  datatype FetchError = FetchError(signalAborted: bool, name: Option<string>, code: Option<string>, causeCode: Option<string>)

  function ExtractCode(e: FetchError): Option<string> {
    if e.code.Some? then e.code else e.causeCode
  }

  function ClassifyError(e: FetchError): Outcome {
    if e.signalAborted || e.name == Some("AbortError") || e.name == Some("TimeoutError") then Aborted
    else
      var code := ExtractCode(e);
      if code.Some? && code.value in CONNECT_CODES then ConnectFailure else UpstreamFailure
  }

  /** The caller's signal fired, or the error carries one of the two abort names. */
  predicate AbortLike(e: FetchError) {
    e.signalAborted || (e.name.Some? && e.name.value in {"AbortError", "TimeoutError"})
  }

  lemma AbortedIff(e: FetchError)
    ensures ClassifyError(e) == Aborted <==> AbortLike(e)
    ensures ClassifyError(e) == ConnectFailure <==>
              !AbortLike(e) && ((e.code.Some? && e.code.value in CONNECT_CODES)
                                || (e.code.None? && e.causeCode.Some? && e.causeCode.value in CONNECT_CODES))
    ensures IsFailure(ClassifyError(e)) <==> !AbortLike(e)
  {
  }

  // ----- The environment of one request -----

  datatype Reply = Responded | Threw(error: FetchError)

  /** One trip round the loop: when next() reads the clock and what it draws, when report()
      reads the clock, and what the fetch came back with. */
  datatype Attempt = Attempt(pick: int, r: real, done: int, reply: Reply)

  datatype Ending = Direct | ResponseFrom(index: nat) | AbortedBy(error: FetchError) | Exhausted(attempted: set<string>)

  predicate Drawable(env: seq<Attempt>) {
    forall i | 0 <= i < |env| :: 0.0 <= env[i].r < 1.0
  }

  function OutcomeOf(a: Attempt): Outcome {
    if a.reply.Responded? then Succeeded else ClassifyError(a.reply.error)
  }

  /** The pool after an attempt on entry i. */
  function AfterAttempt(s: State, cfg: Config, a: Attempt, i: nat): State
    requires 0.0 <= a.r < 1.0 && i < |s.entries|
  {
    Report(Next(s, cfg, a.pick, a.r).0, cfg, s.entries[i].id, OutcomeOf(a), a.done)
  }

  function Min(a: nat, b: nat): (m: nat)
    ensures m <= a && m <= b && (m == a || m == b)
  {
    if a < b then a else b
  }

  /** The loop with the remaining trips env. */
  function Loop(s: State, cfg: Config, env: seq<Attempt>, attempted: set<string>): (State, Ending)
    requires Drawable(env)
    decreases |env|
  {
    if env == [] || s.entries == [] then (s, Exhausted(attempted))
    else
      NextInRange(s, cfg, env[0].pick, env[0].r);
      var a, i := env[0], Next(s, cfg, env[0].pick, env[0].r).1.value;
      var s', now := AfterAttempt(s, cfg, a, i), attempted + {s.entries[i].id};
      if a.reply.Responded? then (s', ResponseFrom(i))
      else if OutcomeOf(a) == Aborted then (s', AbortedBy(a.reply.error))
      else Loop(s', cfg, env[1..], now)
  }

  lemma NextInRange(s: State, cfg: Config, t: int, r: real)
    requires 0.0 <= r < 1.0 && s.entries != []
    ensures var c := Next(s, cfg, t, r).1; c.Some? && c.value < |s.entries|
    ensures Next(s, cfg, t, r).0.entries == s.entries
  {
    hide Earliest;
    var h := HealthyBelow(s.entries, t, |s.entries|);
    if h != [] && cfg.strategy == RoundRobin { ScanInRange(s.entries, t, s.cursor, 0); }
  }

  lemma {:induction false} ScanInRange(es: seq<Entry>, t: int, cursor: nat, off: nat)
    requires es != [] && off <= |es|
    ensures Scan(es, t, cursor, off) < |es|
    decreases |es| - off
  {
    if off < |es| {
      ScanInRange(es, t, cursor, off + 1);
    }
  }

  method FetchExternal(pool: Pool?, bypass: bool, maxRetries: nat, env: seq<Attempt>) returns (r: Ending)
    requires Drawable(env)
    requires pool != null ==> CursorInRange(pool.Model()) && |env| >= Min(maxRetries, |pool.entries|)
    modifies pool
    ensures bypass || pool == null || |old(pool.entries)| == 0 <==> r == Direct
    ensures pool != null && r == Direct ==> pool.Model() == old(pool.Model())
    ensures r != Direct ==>
              (pool.Model(), r) == Loop(old(pool.Model()), pool.config, env[..Min(maxRetries, |old(pool.entries)|)], {})
  {
    if bypass || pool == null || |pool.entries| == 0 { return Direct; }
    var maxAttempts := Min(maxRetries, |pool.entries|);
    var attempted: set<string> := {};
    ghost var cfg, trips, n := pool.config, env[..maxAttempts], |pool.entries|;
    for attempt := 0 to maxAttempts
      invariant CursorInRange(pool.Model()) && |pool.entries| == n
      invariant Loop(old(pool.Model()), cfg, trips, {}) == Loop(pool.Model(), cfg, trips[attempt..], attempted)
    {
      var a := env[attempt];
      assert trips[attempt..][0] == a && trips[attempt..][1..] == trips[attempt + 1..];
      ghost var before := pool.Model();
      NextInRange(before, cfg, a.pick, a.r);
      NextKeepsCursor(before, cfg, a.pick, a.r);
      var i := pool.NextIndex(a.pick, a.r);
      var id := pool.entries[i.value].id;
      attempted := attempted + {id};
      if a.reply.Responded? {
        pool.ReportById(id, Succeeded, a.done);
        return ResponseFrom(i.value);
      }
      var outcome := ClassifyError(a.reply.error);
      pool.ReportById(id, outcome, a.done);
      if outcome == Aborted { return AbortedBy(a.reply.error); }
    }
    return Exhausted(attempted);
  }

  lemma NextKeepsCursor(s: State, cfg: Config, t: int, r: real)
    requires 0.0 <= r < 1.0 && CursorInRange(s)
    ensures CursorInRange(Next(s, cfg, t, r).0)
  {
    hide HealthyBelow, Scan, Earliest;
  }
}
