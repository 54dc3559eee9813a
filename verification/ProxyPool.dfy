/** The rotating proxy pool: cooldowns, the round-robin cursor, the all-cooled fallback. */
module ProxyPool {
  import opened Wrappers

  datatype Strategy = RoundRobin | Random

  datatype Outcome = Succeeded | ConnectFailure | UpstreamFailure | Aborted

  datatype Entry = Entry(id: string, lastFailureAt: Option<int>, cooldownUntil: Option<int>, failures: nat)

  datatype Config = Config(strategy: Strategy, cooldown: int, threshold: int)

  datatype State = State(entries: seq<Entry>, cursor: nat)

  predicate IsFailure(o: Outcome) {
    o == ConnectFailure || o == UpstreamFailure
  }

  // ----- Selection -----

  predicate Healthy(e: Entry, t: int) {
    e.cooldownUntil.None? || e.cooldownUntil.value <= t
  }

  function Deadline(e: Entry): int {
    if e.cooldownUntil.Some? then e.cooldownUntil.value else 0
  }

  /** Indices below k of the healthy entries, in order. */
  function HealthyBelow(es: seq<Entry>, t: int, k: nat): (h: seq<nat>)
    requires k <= |es|
    ensures forall i | 0 <= i < |h| :: h[i] < k && Healthy(es[h[i]], t)
  {
    if k == 0 then []
    else HealthyBelow(es, t, k - 1) + if Healthy(es[k - 1], t) then [k - 1] else []
  }

  lemma {:induction false} HealthyBelowComplete(es: seq<Entry>, t: int, k: nat, i: nat)
    requires i < k <= |es| && Healthy(es[i], t)
    ensures i in HealthyBelow(es, t, k)
  {
    if i < k - 1 {
      HealthyBelowComplete(es, t, k - 1, i);
    }
  }

  lemma {:induction false} NoneHealthy(es: seq<Entry>, t: int, k: nat)
    requires k <= |es| && forall j | 0 <= j < k :: !Healthy(es[j], t)
    ensures HealthyBelow(es, t, k) == []
  {
    if k > 0 {
      NoneHealthy(es, t, k - 1);
    }
  }

  /** The lowest healthy index comes first. */
  lemma {:induction false} HealthyBelowFirst(es: seq<Entry>, t: int, k: nat)
    requires 0 < k <= |es| && Healthy(es[0], t)
    ensures HealthyBelow(es, t, k) != [] && HealthyBelow(es, t, k)[0] == 0
  {
    if k > 1 {
      HealthyBelowFirst(es, t, k - 1);
    }
  }

  /** The position off steps after the cursor. */
  function Ring(cursor: nat, off: nat, n: nat): (i: nat)
    requires n > 0
    ensures i < n
  {
    (cursor + off) % n
  }

  lemma ModSmall(x: nat, n: nat)
    requires n > 0 && x < 2 * n
    ensures x % n == if x < n then x else x - n
  {
    var q := x / n;
    assert x == n * q + x % n;
    AtLeastTwice(n, q);
  }

  lemma AtLeastTwice(n: nat, q: nat)
    ensures q >= 2 ==> n * q >= n * 2
  {
  }

  /** From a cursor inside the ring, one round visits every index. */
  function StepsTo(cursor: nat, i: nat, n: nat): (k: nat)
    requires cursor < n && i < n
    ensures k < n && Ring(cursor, k, n) == i
  {
    var k := if i >= cursor then i - cursor else i + n - cursor;
    ModSmall(cursor + k, n);
    k
  }

  /** First healthy index at cursor + off, cursor + off + 1, ... around the ring. */
  function Scan(es: seq<Entry>, t: int, cursor: nat, off: nat): nat
    requires es != [] && off <= |es|
    decreases |es| - off
  {
    if off == |es| then 0
    else if Healthy(es[Ring(cursor, off, |es|)], t) then Ring(cursor, off, |es|)
    else Scan(es, t, cursor, off + 1)
  }

  /** Index below k with the earliest deadline, the first such index. */
  function Earliest(es: seq<Entry>, k: nat): (i: nat)
    requires 0 < k <= |es|
    ensures i < k
    ensures forall j | 0 <= j < k :: Deadline(es[i]) <= Deadline(es[j])
    ensures forall j | 0 <= j < i :: Deadline(es[i]) < Deadline(es[j])
  {
    if k == 1 then 0
    else
      var b := Earliest(es, k - 1);
      if Deadline(es[k - 1]) < Deadline(es[b]) then k - 1 else b
  }

  function RandomPick(h: seq<nat>, r: real): nat
    requires h != [] && 0.0 <= r < 1.0
  {
    RandomIndexInRange(r, |h|);
    var i := (r * |h| as real).Floor;
    h[if i < |h| - 1 then i else |h| - 1]
  }

  lemma RandomIndexInRange(r: real, n: nat)
    requires 0.0 <= r < 1.0 && n > 0
    ensures 0 <= (r * n as real).Floor
  {
  }

  /** What next() returns and leaves behind. r is the random number drawn. */
  function Next(s: State, cfg: Config, t: int, r: real): (State, Option<nat>)
    requires 0.0 <= r < 1.0
  {
    var n := |s.entries|;
    if n == 0 then (s, None)
    else
      var h := HealthyBelow(s.entries, t, n);
      if h == [] then (s, Some(Earliest(s.entries, n)))
      else if cfg.strategy == Random then (s, Some(RandomPick(h, r)))
      else
        var i := Scan(s.entries, t, s.cursor, 0);
        (s.(cursor := (i + 1) % n), Some(i))
  }

  predicate CursorInRange(s: State) {
    s.cursor == 0 || s.cursor < |s.entries|
  }

  // ----- Reports -----

  function FindId(es: seq<Entry>, id: string): (r: Option<nat>)
    ensures r.Some? ==> r.value < |es| && es[r.value].id == id && forall j | 0 <= j < r.value :: es[j].id != id
    ensures r.None? ==> forall j | 0 <= j < |es| :: es[j].id != id
  {
    if es == [] then None
    else if es[0].id == id then Some(0)
    else
      var r := FindId(es[1..], id);
      if r.None? then (assert forall j | 0 < j < |es| :: es[j] == es[1..][j - 1]; None)
      else (assert forall j | 0 < j < |es| :: es[j] == es[1..][j - 1]; Some(r.value + 1))
  }

  function Fail(e: Entry, cfg: Config, t: int): Entry {
    var n := e.failures + 1;
    e.(lastFailureAt := Some(t), failures := n,
       cooldownUntil := if n >= cfg.threshold then Some(t + cfg.cooldown) else e.cooldownUntil)
  }

  function Recover(e: Entry): Entry {
    e.(failures := 0, cooldownUntil := None)
  }

  function Report(s: State, cfg: Config, id: string, o: Outcome, t: int): State {
    var i := FindId(s.entries, id);
    if i.None? || o == Aborted then s
    else
      var e := s.entries[i.value];
      s.(entries := s.entries[i.value := if o == Succeeded then Recover(e) else Fail(e, cfg, t)])
  }

  // ----- The pool as an object -----

  function Fresh(ids: seq<string>): State {
    State(seq(|ids|, i requires 0 <= i < |ids| => Entry(ids[i], None, None, 0)), 0)
  }

  class Pool {
    const config: Config
    var entries: seq<Entry>
    var rrCursor: nat

    constructor (ids: seq<string>, config: Config)
      ensures Model() == Fresh(ids) && this.config == config
    {
      this.config := config;
      entries := seq(|ids|, i requires 0 <= i < |ids| => Entry(ids[i], None, None, 0));
      rrCursor := 0;
    }

    function Model(): State
      reads this
    {
      State(entries, rrCursor)
    }

    method HealthyIndices(t: int) returns (h: seq<nat>)
      ensures h == HealthyBelow(entries, t, |entries|)
    {
      h := [];
      for i := 0 to |entries|
        invariant h == HealthyBelow(entries, t, i)
      {
        if Healthy(entries[i], t) { h := h + [i]; }
      }
    }

    method EarliestCooldownIndex() returns (best: nat)
      requires entries != []
      ensures best == Earliest(entries, |entries|)
    {
      best := 0;
      var bestDeadline := Deadline(entries[0]);
      for i := 1 to |entries|
        invariant best == Earliest(entries, i) && bestDeadline == Deadline(entries[best])
      {
        var d := Deadline(entries[i]);
        if d < bestDeadline {
          best, bestDeadline := i, d;
        }
      }
    }

    method PickRoundRobin(t: int, healthy: seq<nat>) returns (i: nat)
      requires rrCursor < |entries| && healthy != [] && healthy == HealthyBelow(entries, t, |entries|)
      modifies this`rrCursor
      ensures i == Scan(entries, t, old(rrCursor), 0) && rrCursor == (i + 1) % |entries|
    {
      var size := |entries|;
      i := 0;
      for offset := 0 to size
        invariant rrCursor == old(rrCursor)
        invariant Scan(entries, t, rrCursor, 0) == Scan(entries, t, rrCursor, offset)
        invariant forall k | 0 <= k < offset :: !Healthy(entries[Ring(rrCursor, k, size)], t)
      {
        var candidate := (rrCursor + offset) % size;
        assert candidate == Ring(rrCursor, offset, size);
        if Healthy(entries[candidate], t) { HealthyBelowComplete(entries, t, size, candidate); }
        if candidate in healthy {
          rrCursor := (candidate + 1) % size;
          return candidate;
        }
      }
      ghost var k := StepsTo(rrCursor, healthy[0], size);
      assert false;
    }

    method NextIndex(t: int, r: real) returns (chosen: Option<nat>)
      requires 0.0 <= r < 1.0 && CursorInRange(Model())
      modifies this`rrCursor
      ensures (Model(), chosen) == Next(old(Model()), config, t, r)
    {
      if |entries| == 0 { return None; }
      var healthy := HealthyIndices(t);
      if |healthy| == 0 {
        var i := EarliestCooldownIndex();
        return Some(i);
      } else if config.strategy == Random {
        return Some(RandomPick(healthy, r));
      } else {
        var i := PickRoundRobin(t, healthy);
        return Some(i);
      }
    }

    method ReportById(id: string, o: Outcome, t: int)
      modifies this`entries
      ensures Model() == Report(old(Model()), config, id, o, t)
    {
      var i := FindId(entries, id);
      if i.None? || o == Aborted { return; }
      var e := entries[i.value];
      if o == Succeeded {
        entries := entries[i.value := e.(failures := 0, cooldownUntil := None)];
        return;
      }
      e := e.(lastFailureAt := Some(t), failures := e.failures + 1);
      if e.failures >= config.threshold { e := e.(cooldownUntil := Some(t + config.cooldown)); }
      entries := entries[i.value := e];
    }
  }
}
