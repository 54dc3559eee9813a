/** What next() promises about order and chance: round robin keeps the ring order of the healthy
    proxies, random draws uniformly among them, and the fallback ignores the draw. */
module Selection {
  import opened Wrappers
  import opened ProxyPool
  import opened PoolRuns

  // ----- Random -----

  ghost predicate AllDifferent(h: seq<nat>) {
    forall i, j | 0 <= i < j < |h| :: h[i] != h[j]
  }

  /** Candidate k is picked for exactly the draws in [k/n, (k+1)/n). */
  lemma RandomPickUniform(h: seq<nat>, r: real, k: nat)
    requires AllDifferent(h) && k < |h| && 0.0 <= r < 1.0
    ensures RandomPick(h, r) == h[k] <==> k as real <= r * |h| as real < (k + 1) as real
  {
    hide RandomPick;
    var i := PickAt(h, r);
    if i < k {
      assert h[i] != h[k];
    } else if k < i {
      assert h[k] != h[i];
    }
  }

  lemma PickAt(h: seq<nat>, r: real) returns (i: nat)
    requires h != [] && 0.0 <= r < 1.0
    ensures i < |h| && i as real <= r * |h| as real < (i + 1) as real && RandomPick(h, r) == h[i]
  {
    RandomIndexInRange(r, |h|);
    BelowCount(r, |h| as real);
    i := (r * |h| as real).Floor;
    FloorBelow(r * |h| as real, |h|);
  }

  lemma FloorBelow(x: real, n: nat)
    requires x < n as real
    ensures x.Floor <= n - 1 && x.Floor as real <= x < (x.Floor + 1) as real
  {
  }

  lemma BelowCount(r: real, n: real)
    requires 0.0 <= r < 1.0 && n > 0.0
    ensures r * n < n
  {
  }

  ghost predicate Increasing(h: seq<nat>) {
    forall i, j | 0 <= i < j < |h| :: h[i] < h[j]
  }

  lemma {:induction false} HealthyIncreasing(es: seq<Entry>, t: int, k: nat)
    requires k <= |es|
    ensures Increasing(HealthyBelow(es, t, k))
  {
    if k > 0 {
      HealthyIncreasing(es, t, k - 1);
      var g, h := HealthyBelow(es, t, k - 1), HealthyBelow(es, t, k);
      assert h == if Healthy(es[k - 1], t) then g + [k - 1] else g;
    }
  }

  lemma StepUp(h: seq<nat>, i: nat)
    requires Increasing(h)
    ensures i + 1 < |h| ==> h[i] < h[i + 1]
  {
  }

  /** With the random strategy each of the n healthy entries is chosen for one n-th of the draws. */
  lemma RandomUniform(s: State, cfg: Config, t: int, r: real, k: nat)
    requires cfg.strategy == Random && 0.0 <= r < 1.0 && k < |HealthyBelow(s.entries, t, |s.entries|)|
    ensures var h := HealthyBelow(s.entries, t, |s.entries|);
            Next(s, cfg, t, r).1 == Some(h[k]) <==> k as real <= r * |h| as real < (k + 1) as real
  {
    hide Next, RandomPick, HealthyBelow;
    HealthyIncreasing(s.entries, t, |s.entries|);
    RandomChoice(s, cfg, t, r);
    RandomPickUniform(HealthyBelow(s.entries, t, |s.entries|), r, k);
  }

  lemma RandomChoice(s: State, cfg: Config, t: int, r: real)
    requires cfg.strategy == Random && 0.0 <= r < 1.0 && HealthyBelow(s.entries, t, |s.entries|) != []
    ensures Next(s, cfg, t, r).1 == Some(RandomPick(HealthyBelow(s.entries, t, |s.entries|), r))
  {
    assert s.entries != [];
    hide HealthyBelow, RandomPick;
  }

  // ----- Fallback -----

  ghost predicate NothingHealthy(s: State, t: int) {
    forall i | 0 <= i < |s.entries| :: !Healthy(s.entries[i], t)
  }

  /** When nothing is healthy the choice is the first earliest deadline, under either strategy and
      for every draw. */
  lemma FallbackIgnoresDraw(s: State, cfg: Config, t: int, r: real)
    requires 0.0 <= r < 1.0 && s.entries != [] && NothingHealthy(s, t)
    ensures Next(s, cfg, t, r) == (s, Some(Earliest(s.entries, |s.entries|)))
  {
    NoneHealthy(s.entries, t, |s.entries|);
  }

  /** The documented uniform fallback: every entry is reached by some draw. */
  ghost predicate FallbackReachesAll(s: State, cfg: Config, t: int) {
    forall i: nat | i < |s.entries| :: exists r: real :: 0.0 <= r < 1.0 && Next(s, cfg, t, r).1 == Some(i)
  }

  /** It holds only of a pool of one. */
  lemma FallbackReachesAllIff(s: State, cfg: Config, t: int)
    requires s.entries != [] && NothingHealthy(s, t)
    ensures FallbackReachesAll(s, cfg, t) <==> |s.entries| == 1
  {
    hide Next, NothingHealthy;
    var n := |s.entries|;
    var b := Earliest(s.entries, n);
    forall r: real | 0.0 <= r < 1.0
      ensures Next(s, cfg, t, r).1 == Some(b)
    {
      FallbackIgnoresDraw(s, cfg, t, r);
    }
    if n == 1 {
      assert 0.0 <= 0.0 < 1.0 && Next(s, cfg, t, 0.0).1 == Some(0);
    } else {
      var other: nat := if b == 0 then 1 else 0;
      assert forall r: real | 0.0 <= r < 1.0 :: Next(s, cfg, t, r).1 != Some(other);
    }
  }

  // ----- Round robin keeps the order of the healthy set -----

  /** The scan skips what is parked and stops at the first healthy entry, d steps on. */
  lemma {:induction false} ScanHits(es: seq<Entry>, t: int, cursor: nat, off: nat, d: nat)
    requires es != [] && off <= d < |es| && Healthy(es[Ring(cursor, d, |es|)], t)
    requires forall o | off <= o < d :: !Healthy(es[Ring(cursor, o, |es|)], t)
    ensures Scan(es, t, cursor, off) == Ring(cursor, d, |es|)
    decreases d - off
  {
    if off < d {
      ScanHits(es, t, cursor, off + 1, d);
    }
  }

  /** h lists the healthy indices in order; the first k of them lie before the cursor. */
  ghost predicate Splits(h: seq<nat>, cursor: nat, k: nat) {
    && k <= |h|
    && (forall i | 0 <= i < k :: h[i] < cursor)
    && (forall i | k <= i < |h| :: h[i] >= cursor)
  }

  /** The list read from position k on, the first k at the end. */
  function Rotation(h: seq<nat>, k: nat): (r: seq<nat>)
    requires k <= |h|
    ensures |r| == |h|
  {
    h[k..] + h[..k]
  }

  lemma HealthyListed(es: seq<Entry>, t: int, p: nat)
    requires p < |es|
    ensures Healthy(es[p], t) ==> p in HealthyBelow(es, t, |es|)
  {
    if Healthy(es[p], t) { HealthyBelowComplete(es, t, |es|, p); }
  }

  lemma ScanRotates(es: seq<Entry>, t: int, cursor: nat, k: nat)
    requires cursor < |es| && HealthyBelow(es, t, |es|) != [] && Splits(HealthyBelow(es, t, |es|), cursor, k)
    ensures Scan(es, t, cursor, 0) == Rotation(HealthyBelow(es, t, |es|), k)[0]
  {
    var n, h := |es|, HealthyBelow(es, t, |es|);
    var target := Rotation(h, k)[0];
    HealthyIncreasing(es, t, n);
    var d := Distance(cursor, target, n);
    ModSmall(cursor + d, n);
    forall o | 0 <= o < d
      ensures !Healthy(es[Ring(cursor, o, n)], t)
    {
      ModSmall(cursor + o, n);
      var p := Ring(cursor, o, n);
      assert forall i | 0 <= i < |h| :: h[i] != p;
      HealthyListed(es, t, p);
    }
    ScanHits(es, t, cursor, 0, d);
  }

  /** Where the cursor stands in the healthy list after the pick. */
  function NextSplit(h: seq<nat>, k: nat, n: nat): (k': nat)
    requires k <= |h| && h != []
    ensures k' <= |h|
  {
    if Rotation(h, k)[0] + 1 == n then 0 else if k < |h| then k + 1 else 1
  }

  /** The picked entry goes to the end of the list, whether or not the cursor wraps. */
  lemma NextRotation(h: seq<nat>, cursor: nat, k: nat, n: nat)
    requires h != [] && Increasing(h) && (forall i | 0 <= i < |h| :: h[i] < n)
    requires cursor < n && Splits(h, cursor, k)
    ensures var r := Rotation(h, k);
            && (r[0] + 1) % n < n && Splits(h, (r[0] + 1) % n, NextSplit(h, k, n))
            && Rotation(h, NextSplit(h, k, n)) == r[1..] + [r[0]]
  {
    ModSmall(Rotation(h, k)[0] + 1, n);
    if Rotation(h, k)[0] + 1 == n {
      var i := if k < |h| then k else 0;
      StepUp(h, i);
      assert i == |h| - 1;
    }
  }

  /** While the healthy set stays what it is, every next() call of a run sees it. */
  ghost predicate SeesOnly(s: State, evs: seq<Event>, h: seq<nat>) {
    WellFormedRun(evs) && forall i | 0 <= i < |evs| ::
      evs[i].NextCall? && HealthyBelow(s.entries, evs[i].t, |s.entries|) == h
  }

  lemma {:induction false} ChosenInOrder(s: State, cfg: Config, evs: seq<Event>, h: seq<nat>, k: nat)
    requires cfg.strategy == RoundRobin && s.cursor < |s.entries| && SeesOnly(s, evs, h)
    requires h != [] && |evs| <= |h| && Splits(h, s.cursor, k)
    requires forall i | 0 <= i < |h| :: h[i] < |s.entries|
    requires Increasing(h)
    ensures Chosen(s, cfg, evs) == Rotation(h, k)[..|evs|]
    decreases |evs|
  {
    if evs != [] {
      hide Scan, HealthyBelow, Splits, Rotation, NextSplit;
      var e, rest, n := evs[0], evs[1..], |s.entries|;
      ScanRotates(s.entries, e.t, s.cursor, k);
      NextRotation(h, s.cursor, k, n);
      var c := Rotation(h, k)[0];
      assert Next(s, cfg, e.t, e.r) == (s.(cursor := (c + 1) % n), Some(c));
      ChosenInOrder(s.(cursor := (c + 1) % n), cfg, rest, h, NextSplit(h, k, n));
      TakeRotated(Rotation(h, k), |rest|);
    }
  }

  lemma TakeRotated(r: seq<nat>, m: nat)
    requires m < |r|
    ensures [r[0]] + (r[1..] + [r[0]])[..m] == r[..m + 1]
  {
  }

  lemma {:induction false} SplitExists(h: seq<nat>, cursor: nat) returns (k: nat)
    requires Increasing(h)
    ensures Splits(h, cursor, k)
  {
    if h == [] || h[|h| - 1] < cursor {
      k := |h|;
    } else {
      k := SplitExists(h[..|h| - 1], cursor);
    }
  }

  /** Round robin: as many calls as there are healthy proxies return each of them once, in ring
      order, the parked ones being skipped. */
  lemma HealthyOrderPreserved(s: State, cfg: Config, evs: seq<Event>, h: seq<nat>) returns (k: nat)
    requires cfg.strategy == RoundRobin && s.cursor < |s.entries| && evs != []
    requires SeesOnly(s, evs, h) && |evs| == |h|
    ensures k <= |h| && Chosen(s, cfg, evs) == h[k..] + h[..k]
  {
    assert HealthyBelow(s.entries, evs[0].t, |s.entries|) == h;
    HealthyIncreasing(s.entries, evs[0].t, |s.entries|);
    k := SplitExists(h, s.cursor);
    ChosenInOrder(s, cfg, evs, h, k);
  }
}
