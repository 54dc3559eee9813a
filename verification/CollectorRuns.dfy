/** Whole runs of the collector: order and abort, how many articles are fetched at once, and that
    every run ends. */
module CollectorRuns {
  import opened Wrappers
  import opened Collector

  // ----- With an abort: order and ranks survive -----

  ghost predicate RankOrdered(out: seq<Article>) {
    forall i, j | 0 <= i < j < |out| && out[i].source == out[j].source :: out[i].rank < out[j].rank
  }

  ghost predicate QueueOrdered(queue: seq<Queued>) {
    forall i, j | 0 <= i < j < |queue| && queue[i].source == queue[j].source :: queue[i].rank < queue[j].rank
  }

  /** The output picks some queue positions in increasing order; position p[k] gave out[k]. */
  ghost predicate PicksFrom(out: seq<Article>, p: seq<nat>, queue: seq<Queued>, fetch: Fetch) {
    && |p| == |out|
    && (forall k | 0 <= k < |p| :: p[k] < |queue| && Some(out[k]) == FetchArticle(queue[p[k]], fetch))
    && (forall k, m | 0 <= k < m < |p| :: p[k] < p[m])
  }

  lemma {:induction false} PresentPicks(rs: seq<Option<Article>>, queue: seq<Queued>, fetch: Fetch) returns (p: seq<nat>)
    requires |rs| <= |queue| && forall i | 0 <= i < |rs| :: rs[i].None? || rs[i] == FetchArticle(queue[i], fetch)
    ensures PicksFrom(Present(rs), p, queue, fetch) && forall k | 0 <= k < |p| :: p[k] < |rs|
  {
    if rs == [] {
      p := [];
    } else {
      hide FetchArticle, PicksFrom, Present;
      var n := |rs| - 1;
      PresentStep(rs);
      var q := PresentPicks(rs[..n], queue, fetch);
      p := if rs[n].Some? then q + [n] else q;
      AppendPick(Present(rs[..n]), q, queue, fetch, rs[n], n);
    }
  }

  lemma AppendPick(out: seq<Article>, p: seq<nat>, queue: seq<Queued>, fetch: Fetch, r: Option<Article>, n: nat)
    requires PicksFrom(out, p, queue, fetch) && (forall k | 0 <= k < |p| :: p[k] < n) && n < |queue|
    requires r.None? || r == FetchArticle(queue[n], fetch)
    ensures r.Some? ==> PicksFrom(out + [r.value], p + [n], queue, fetch)
    ensures forall k | 0 <= k < |p| + 1 :: (p + [n])[k] < n + 1
  {
    hide FetchArticle;
  }

  /** Whatever is aborted when: the output is an in-order selection of the queue's articles,
      and within one source the ranks strictly increase. */
  lemma AbortKeepsOrder(sources: seq<Source>, perSource: nat, concurrency: int, fetch: Fetch, es: seq<Event>)
    returns (p: seq<nat>)
    requires DistinctKeys(sources)
    requires Possible(Initial(BuildQueue(sources, perSource), concurrency), fetch, es)
    ensures var s := Run(Initial(BuildQueue(sources, perSource), concurrency), fetch, es);
            PicksFrom(Present(s.results), p, s.queue, fetch) && RankOrdered(Present(s.results))
  {
    var queue := BuildQueue(sources, perSource);
    var s0 := Initial(queue, concurrency);
    InitialInvariant(queue, concurrency, fetch);
    RunKeepsInvariant(s0, fetch, es);
    var s := Run(s0, fetch, es);
    p := PresentPicks(s.results, queue, fetch);
    BuildOrdered(sources, perSource);
    PickedOrdered(Present(s.results), p, queue, fetch);
  }

  lemma PickedOrdered(out: seq<Article>, p: seq<nat>, queue: seq<Queued>, fetch: Fetch)
    requires PicksFrom(out, p, queue, fetch) && QueueOrdered(queue)
    ensures RankOrdered(out)
  {
    forall i, j | 0 <= i < j < |out| && out[i].source == out[j].source
      ensures out[i].rank < out[j].rank
    {
      assert Some(out[i]) == FetchArticle(queue[p[i]], fetch) && Some(out[j]) == FetchArticle(queue[p[j]], fetch);
      assert p[i] < p[j];
    }
  }

  ghost predicate DistinctKeys(sources: seq<Source>) {
    forall i, j | 0 <= i < j < |sources| :: sources[i].key != sources[j].key
  }

  ghost predicate KeysWithin(queue: seq<Queued>, sources: seq<Source>) {
    forall q | q in queue :: exists i :: 0 <= i < |sources| && sources[i].key == q.source
  }

  lemma {:induction false} BuildOrdered(sources: seq<Source>, perSource: nat)
    requires DistinctKeys(sources)
    ensures QueueOrdered(BuildQueue(sources, perSource)) && KeysWithin(BuildQueue(sources, perSource), sources)
  {
    if sources != [] {
      hide SourceEntries;
      var n := |sources| - 1;
      BuildOrdered(sources[..n], perSource);
      OwnEntries(sources[n], perSource);
      AppendOrdered(BuildQueue(sources[..n], perSource), SourceEntries(sources[n], perSource), sources);
    }
  }

  lemma OwnEntries(s: Source, perSource: nat)
    ensures var q := SourceEntries(s, perSource); QueueOrdered(q) && forall i | 0 <= i < |q| :: q[i].source == s.key
  {
    hide Top;
  }

  lemma AppendOrdered(a: seq<Queued>, b: seq<Queued>, sources: seq<Source>)
    requires sources != [] && DistinctKeys(sources) && KeysWithin(a, sources[..|sources| - 1])
    requires QueueOrdered(a) && QueueOrdered(b) && forall i | 0 <= i < |b| :: b[i].source == sources[|sources| - 1].key
    ensures QueueOrdered(a + b) && KeysWithin(a + b, sources)
  {
    var n := |sources| - 1;
    forall q | q in a
      ensures q.source != sources[n].key && exists i :: 0 <= i < |sources| && sources[i].key == q.source
    {
      var i :| 0 <= i < n && sources[..n][i].key == q.source;
      assert sources[i].key == q.source;
    }
    forall i | 0 <= i < |a|
      ensures a[i].source != sources[n].key
    {
      assert a[i] in a;
    }
    assert sources[n] == sources[|sources| - 1];
  }

  /** Once aborted, no worker claims another index, whatever still arrives. */
  lemma {:induction false} AbortStopsClaims(s: State, fetch: Fetch, es: seq<Event>)
    requires s.aborted && Possible(s, fetch, es)
    ensures var t := Run(s, fetch, es);
            && t.aborted && t.claimed == s.claimed && t.cursor == s.cursor && |t.workers| == |s.workers|
            && forall w | 0 <= w < |t.workers| && t.workers[w].Fetching? :: t.workers[w] == s.workers[w]
    decreases |es|
  {
    if es != [] {
      AbortStopsClaims(Step(s, fetch, es[0]), fetch, es[1..]);
    }
  }

  // ----- How many articles are fetched at once -----

  function InFlight(ws: seq<WorkerState>): (n: nat)
    ensures n <= |ws|
  {
    if ws == [] then 0 else InFlight(ws[..|ws| - 1]) + if ws[|ws| - 1].Fetching? then 1 else 0
  }

  lemma {:induction false} RunKeepsWorkers(s: State, fetch: Fetch, es: seq<Event>)
    requires Possible(s, fetch, es)
    ensures |Run(s, fetch, es).workers| == |s.workers|
    decreases |es|
  {
    if es != [] {
      RunKeepsWorkers(Step(s, fetch, es[0]), fetch, es[1..]);
    }
  }

  function Larger(a: int, b: int): (m: int)
    ensures m >= a && m >= b && (m == a || m == b)
  {
    if a < b then b else a
  }

  /** On no run are more articles fetched at once than the concurrency allows, one at least. */
  lemma AtMostConcurrency(queue: seq<Queued>, concurrency: int, fetch: Fetch, es: seq<Event>)
    requires Possible(Initial(queue, concurrency), fetch, es)
    ensures InFlight(Run(Initial(queue, concurrency), fetch, es).workers) <= Larger(1, concurrency)
  {
    RunKeepsWorkers(Initial(queue, concurrency), fetch, es);
  }

  /** The first k workers each with an index of their own. */
  function Started(queue: seq<Queued>, n: nat, k: nat): State
    requires k <= n
  {
    State(queue, seq(n, (w: nat) => if w < k then Fetching(w) else AtTop), k, seq(|queue|, _ => None), false,
          seq(k, (i: nat) => i))
  }

  function Proceeds(k: nat, m: nat): (es: seq<Event>)
    requires k <= m
    ensures |es| == m - k
  {
    seq(m - k, i requires 0 <= i => Proceed(k + i))
  }

  lemma {:induction false} StartsMore(queue: seq<Queued>, n: nat, k: nat, m: nat, fetch: Fetch)
    requires k <= m <= n && m <= |queue|
    ensures Possible(Started(queue, n, k), fetch, Proceeds(k, m))
    ensures Run(Started(queue, n, k), fetch, Proceeds(k, m)) == Started(queue, n, m)
    decreases m - k
  {
    if k < m {
      var s, es := Started(queue, n, k), Proceeds(k, m);
      assert es[0] == Proceed(k) && es[1..] == Proceeds(k + 1, m);
      assert Step(s, fetch, es[0]) == Started(queue, n, k + 1);
      StartsMore(queue, n, k + 1, m, fetch);
    }
  }

  lemma {:induction false} StartedInFlight(ws: seq<WorkerState>, k: nat)
    requires k <= |ws| && forall w | 0 <= w < |ws| :: ws[w].Fetching? <==> w < k
    ensures InFlight(ws) == k
  {
    if ws != [] {
      var n := |ws| - 1;
      StartedInFlight(ws[..n], if k <= n then k else n);
    }
  }

  /** That many are fetched at once on some run, or the whole queue if it is shorter. */
  lemma ConcurrencyReached(queue: seq<Queued>, concurrency: int, fetch: Fetch) returns (es: seq<Event>)
    ensures Possible(Initial(queue, concurrency), fetch, es)
    ensures InFlight(Run(Initial(queue, concurrency), fetch, es).workers) == Min(Larger(1, concurrency), |queue|)
  {
    var n := Larger(1, concurrency);
    var m := Min(n, |queue|);
    es := Proceeds(0, m);
    assert Initial(queue, concurrency) == Started(queue, n, 0);
    StartsMore(queue, n, 0, m, fetch);
    StartedInFlight(Started(queue, n, m).workers, m);
  }

  // ----- Every run ends -----

  function Weight(ws: seq<WorkerState>): nat {
    if ws == [] then 0
    else Weight(ws[..|ws| - 1]) + match ws[|ws| - 1] case AtTop => 1 case Fetching(_) => 2 case Done => 0
  }

  /** Steps still possible, aborts not counted. */
  function StepsLeft(s: State): nat {
    2 * (|s.queue| - Min(s.cursor, |s.queue|)) + Weight(s.workers)
  }

  lemma {:induction false} WeightUpdate(ws: seq<WorkerState>, w: nat, k: WorkerState)
    requires w < |ws|
    ensures Weight(ws[w := k]) - Weight([k]) == Weight(ws) - Weight([ws[w]])
  {
    var n := |ws| - 1;
    assert Weight([k]) == Weight([]) + match k case AtTop => 1 case Fetching(_) => 2 case Done => 0;
    assert Weight([ws[w]]) == Weight([]) + match ws[w] case AtTop => 1 case Fetching(_) => 2 case Done => 0;
    if w == n {
      assert ws[w := k][..n] == ws[..n];
    } else {
      WeightUpdate(ws[..n], w, k);
      assert ws[w := k][..n] == ws[..n][w := k];
    }
  }

  /** Every step but an abort uses up one; an unfinished run always has such a step. */
  lemma RunsEnd(s: State, fetch: Fetch, e: Event)
    requires Invariant(s, fetch) && Enabled(s, fetch, e)
    ensures e.Abort? || StepsLeft(Step(s, fetch, e)) == StepsLeft(s) - 1
    ensures !Finished(s) ==> exists e': Event :: !e'.Abort? && Enabled(s, fetch, e')
  {
    if !e.Abort? {
      WeightUpdate(s.workers, e.w, Step(s, fetch, e).workers[e.w]);
    }
    if !Finished(s) {
      var w :| 0 <= w < |s.workers| && !s.workers[w].Done?;
      if s.workers[w].AtTop? {
        assert Enabled(s, fetch, Proceed(w));
      } else {
        assert Enabled(s, fetch, Arrive(w, FetchArticle(s.queue[s.workers[w].index], fetch)));
      }
    }
  }
}
