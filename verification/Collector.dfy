/** The news collector: a queue built source by source, fetched by concurrent workers that
    share one cursor, and filtered in queue order. */
module Collector {
  import opened Wrappers

  datatype Item = Item(link: string, title: string)

  /** What one feed request came back with; absent when it failed or was empty. */
  datatype Source = Source(key: string, feed: Option<seq<Item>>)

  datatype Queued = Queued(source: string, rank: nat, item: Item)

  datatype Article = Article(source: string, rank: nat, body: string)

  /** What fetching an article gives: the extracted body, or nothing on any failure. */
  type Fetch = Queued -> Option<string>

  function FetchArticle(q: Queued, fetch: Fetch): Option<Article> {
    match fetch(q)
    case None => None
    case Some(body) => Some(Article(q.source, q.rank, body))
  }

  // ----- Building the queue -----

  function Min(a: nat, b: nat): (m: nat)
    ensures m <= a && m <= b && (m == a || m == b)
  {
    if a < b then a else b
  }

  function Top(items: seq<Item>, perSource: nat): seq<Item> {
    if |items| <= perSource then items else items[..perSource]
  }

  /** The entries of one source, ranked from 1. */
  function Ranked(key: string, items: seq<Item>): (q: seq<Queued>)
    ensures |q| == |items|
  {
    seq(|items|, i requires 0 <= i < |items| => Queued(key, i + 1, items[i]))
  }

  /** The queue from the sources reached before an abort. */
  function BuildQueue(sources: seq<Source>, perSource: nat): seq<Queued> {
    if sources == [] then []
    else
      var s := sources[|sources| - 1];
      BuildQueue(sources[..|sources| - 1], perSource)
      + SourceEntries(s, perSource)
  }

  // ----- What the queue must hold, source by source -----

  /** How many of a source's items are wanted. */
  function Quota(s: Source, perSource: nat): (n: nat)
    ensures n <= perSource && (s.feed.Some? ==> n <= |s.feed.value|)
  {
    if s.feed.None? then 0 else Min(perSource, |s.feed.value|)
  }

  /** Entries queued for the first k sources. */
  function Before(sources: seq<Source>, perSource: nat, k: nat): nat
    requires k <= |sources|
  {
    if k == 0 then 0 else Before(sources, perSource, k - 1) + Quota(sources[k - 1], perSource)
  }

  /** From position at the wanted items of the source, in feed order and ranked from 1. */
  ghost predicate HoldsSource(queue: seq<Queued>, at: nat, s: Source, perSource: nat) {
    at + Quota(s, perSource) <= |queue| && forall i | 0 <= i < Quota(s, perSource) ::
      queue[at + i] == Queued(s.key, i + 1, s.feed.value[i])
  }

  /** Source after source, the first items of each feed, and nothing else. */
  ghost predicate HoldsTops(queue: seq<Queued>, sources: seq<Source>, perSource: nat) {
    && |queue| == Before(sources, perSource, |sources|)
    && forall k | 0 <= k < |sources| :: HoldsSource(queue, Before(sources, perSource, k), sources[k], perSource)
  }

  lemma {:induction false} BuildHoldsTops(sources: seq<Source>, perSource: nat)
    ensures HoldsTops(BuildQueue(sources, perSource), sources, perSource)
  {
    if sources != [] {
      hide SourceEntries, HoldsTops;
      var n := |sources| - 1;
      BuildHoldsTops(sources[..n], perSource);
      TopsGrow(BuildQueue(sources[..n], perSource), sources, perSource);
    }
  }

  lemma TopsGrow(a: seq<Queued>, sources: seq<Source>, perSource: nat)
    requires sources != [] && HoldsTops(a, sources[..|sources| - 1], perSource)
    ensures HoldsTops(a + SourceEntries(sources[|sources| - 1], perSource), sources, perSource)
  {
    hide SourceEntries, HoldsSource, Quota, Before;
    var n := |sources| - 1;
    var init, s := sources[..n], sources[n];
    var b := SourceEntries(s, perSource);
    HoldsMore(a, b, s, perSource);
    BeforeStep(sources, perSource, n);
    forall k | 0 <= k <= n
      ensures Before(sources, perSource, k) == Before(init, perSource, k)
    {
      BeforePrefix(sources, perSource, n, k);
    }
    forall k | 0 <= k < n
      ensures HoldsSource(a + b, Before(sources, perSource, k), sources[k], perSource)
    {
      assert HoldsSource(a, Before(init, perSource, k), init[k], perSource);
      HoldsLonger(a, b, Before(sources, perSource, k), sources[k], perSource);
    }
  }

  lemma BeforeStep(sources: seq<Source>, perSource: nat, k: nat)
    requires k < |sources|
    ensures Before(sources, perSource, k + 1) == Before(sources, perSource, k) + Quota(sources[k], perSource)
  {
  }

  function SourceEntries(s: Source, perSource: nat): seq<Queued> {
    if s.feed.Some? then Ranked(s.key, Top(s.feed.value, perSource)) else []
  }

  lemma HoldsMore(a: seq<Queued>, b: seq<Queued>, s: Source, perSource: nat)
    requires b == SourceEntries(s, perSource)
    ensures |b| == Quota(s, perSource) && HoldsSource(a + b, |a|, s, perSource)
  {
    forall i | 0 <= i < |b|
      ensures (a + b)[|a| + i] == Queued(s.key, i + 1, s.feed.value[i])
    {
      assert (a + b)[|a| + i] == b[i];
    }
  }

  lemma HoldsLonger(a: seq<Queued>, b: seq<Queued>, at: nat, s: Source, perSource: nat)
    requires HoldsSource(a, at, s, perSource)
    ensures HoldsSource(a + b, at, s, perSource)
  {
    forall i | 0 <= i < Quota(s, perSource)
      ensures (a + b)[at + i] == Queued(s.key, i + 1, s.feed.value[i])
    {
      assert a[at + i] == Queued(s.key, i + 1, s.feed.value[i]);
    }
  }

  lemma {:induction false} BeforePrefix(sources: seq<Source>, perSource: nat, n: nat, k: nat)
    requires k <= n <= |sources|
    ensures Before(sources, perSource, k) == Before(sources[..n], perSource, k)
  {
    if k > 0 {
      BeforePrefix(sources, perSource, n, k - 1);
    }
  }

  /** reached says how many sources were started before the signal was aborted. */
  method QueueSources(sources: seq<Source>, perSource: nat, reached: nat) returns (queue: seq<Queued>)
    requires reached <= |sources|
    ensures queue == BuildQueue(sources[..reached], perSource)
    ensures HoldsTops(queue, sources[..reached], perSource)
  {
    BuildHoldsTops(sources[..reached], perSource);
    queue := [];
    var n := 0;
    while n < |sources|
      invariant n <= reached && queue == BuildQueue(sources[..n], perSource)
    {
      if n == reached { break; }
      BuildStep(sources, perSource, n);
      if sources[n].feed.Some? {
        queue := PushTop(queue, sources[n].key, Top(sources[n].feed.value, perSource));
      }
      n := n + 1;
    }
  }

  method PushTop(before: seq<Queued>, key: string, top: seq<Item>) returns (queue: seq<Queued>)
    ensures queue == before + Ranked(key, top)
  {
    queue := before;
    ghost var all := Ranked(key, top);
    for i := 0 to |top|
      invariant queue == before + all[..i]
    {
      queue := queue + [Queued(key, i + 1, top[i])];
    }
    assert all[..|top|] == all;
  }

  lemma BuildStep(sources: seq<Source>, perSource: nat, n: nat)
    requires n < |sources|
    ensures BuildQueue(sources[..n + 1], perSource) ==
            BuildQueue(sources[..n], perSource) + SourceEntries(sources[n], perSource)
  {
    assert sources[..n + 1][..n] == sources[..n];
  }

  // ----- Fetching concurrently -----

  /** A worker is at the top of its loop, waiting for the article it claimed, or done. */
  datatype WorkerState = AtTop | Fetching(index: nat) | Done

  datatype State = State(
    queue: seq<Queued>, workers: seq<WorkerState>, cursor: nat, results: seq<Option<Article>>, aborted: bool,
    claimed: seq<nat>)

  /** Arrive carries what the fetch produced. */
  datatype Event = Proceed(w: nat) | Arrive(w: nat, got: Option<Article>) | Abort

  function Initial(queue: seq<Queued>, concurrency: int): State {
    State(queue, seq(if concurrency < 1 then 1 else concurrency, _ => AtTop), 0, seq(|queue|, _ => None), false, [])
  }

  /** Without abort a fetch gives what the article gives; once aborted it may also fail. */
  predicate Plausible(q: Queued, fetch: Fetch, aborted: bool, got: Option<Article>) {
    got == FetchArticle(q, fetch) || (aborted && got.None?)
  }

  predicate Enabled(s: State, fetch: Fetch, e: Event) {
    match e
    case Proceed(w) => w < |s.workers| && s.workers[w].AtTop?
    case Arrive(w, got) =>
      && w < |s.workers| && s.workers[w].Fetching? && s.workers[w].index < |s.queue| == |s.results|
      && Plausible(s.queue[s.workers[w].index], fetch, s.aborted, got)
    case Abort => true
  }

  function Step(s: State, fetch: Fetch, e: Event): State
    requires Enabled(s, fetch, e)
  {
    match e
    case Proceed(w) =>
      if s.aborted then s.(workers := s.workers[w := Done])
      else if s.cursor >= |s.queue| then s.(workers := s.workers[w := Done], cursor := s.cursor + 1)
      else
        s.(workers := s.workers[w := Fetching(s.cursor)], cursor := s.cursor + 1, claimed := s.claimed + [s.cursor])
    case Arrive(w, got) =>
      var i := s.workers[w].index;
      s.(workers := s.workers[w := AtTop], results := if got.Some? then s.results[i := got] else s.results)
    case Abort => s.(aborted := true)
  }

  class Collector {
    const queue: seq<Queued>
    var workers: seq<WorkerState>
    var cursor: nat
    var results: array<Option<Article>>
    var aborted: bool
    ghost var claimed: seq<nat>

    constructor (queue: seq<Queued>, concurrency: int, ghost fetch: Fetch)
      ensures Model() == Initial(queue, concurrency) && fresh(results) && Invariant(Model(), fetch)
      ensures |workers| >= 1 && |workers| >= concurrency && (|workers| == 1 || |workers| == concurrency)
    {
      this.queue := queue;
      workers := seq(if concurrency < 1 then 1 else concurrency, _ => AtTop);
      cursor := 0;
      results := new Option<Article>[|queue|](_ => None);
      aborted := false;
      claimed := [];
      InitialInvariant(queue, concurrency, fetch);
    }

    ghost function Model(): State
      reads this, results
    {
      State(queue, workers, cursor, results[..], aborted, claimed)
    }

    /** The top of a worker's loop, up to its next suspension. */
    method WorkerProceeds(w: nat, ghost fetch: Fetch)
      requires Invariant(Model(), fetch) && Enabled(Model(), fetch, Proceed(w))
      modifies this
      ensures results == old(results) && Model() == Step(old(Model()), fetch, Proceed(w))
      ensures Invariant(Model(), fetch)
    {
      StepKeepsInvariant(Model(), fetch, Proceed(w));
      hide Invariant;
      if aborted {
        workers := workers[w := Done];
        return;
      }
      var i := cursor;
      cursor := cursor + 1;
      if i >= |queue| {
        workers := workers[w := Done];
        return;
      }
      workers := workers[w := Fetching(i)];
      claimed := claimed + [i];
    }

    method ArticleArrives(w: nat, got: Option<Article>, ghost fetch: Fetch)
      requires Invariant(Model(), fetch) && Enabled(Model(), fetch, Arrive(w, got))
      modifies this`workers, results
      ensures results == old(results) && Model() == Step(old(Model()), fetch, Arrive(w, got))
      ensures Invariant(Model(), fetch)
    {
      StepKeepsInvariant(Model(), fetch, Arrive(w, got));
      hide Invariant;
      var i := workers[w].index;
      if got.Some? { results[i] := got; }
      workers := workers[w := AtTop];
    }

    /** The filtered results; once all workers are done without abort, the sequential ones. */
    method Collected(ghost fetch: Fetch) returns (out: seq<Article>)
      ensures out == Present(results[..])
      ensures Invariant(Model(), fetch) && Finished(Model()) && !aborted ==>
                && out == Sequential(queue, fetch)
                && forall sources, perSource :: HoldsTops(queue, sources, perSource) ==> out == Output(sources, perSource, fetch)
    {
      out := [];
      for i := 0 to results.Length
        invariant out == Present(results[..i])
      {
        assert results[..i + 1][..i] == results[..i];
        if results[i].Some? { out := out + [results[i].value]; }
      }
      assert results[..results.Length] == results[..];
      if Invariant(Model(), fetch) && Finished(Model()) && !aborted {
        AllResultsIn(Model(), fetch);
        forall sources, perSource | HoldsTops(queue, sources, perSource)
          ensures out == Output(sources, perSource, fetch)
        {
          WholeOutput(queue, sources, perSource, fetch);
        }
      }
    }
  }

  /** The results that are present, in order. */
  function Present(rs: seq<Option<Article>>): seq<Article> {
    if rs == [] then []
    else Present(rs[..|rs| - 1]) + if rs[|rs| - 1].Some? then [rs[|rs| - 1].value] else []
  }

  // ----- Runs -----

  ghost predicate Possible(s: State, fetch: Fetch, es: seq<Event>)
    decreases |es|
  {
    es == [] || (Enabled(s, fetch, es[0]) && Possible(Step(s, fetch, es[0]), fetch, es[1..]))
  }

  function Run(s: State, fetch: Fetch, es: seq<Event>): State
    requires Possible(s, fetch, es)
    decreases |es|
  {
    if es == [] then s else Run(Step(s, fetch, es[0]), fetch, es[1..])
  }

  predicate Finished(s: State) {
    forall w | 0 <= w < |s.workers| :: s.workers[w].Done?
  }

  // ----- The invariant -----

  /** Index i has its result or is being fetched. */
  ghost predicate InHand(s: State, fetch: Fetch, i: nat)
    requires i < |s.queue| == |s.results|
  {
    s.results[i] == FetchArticle(s.queue[i], fetch) || exists w :: 0 <= w < |s.workers| && s.workers[w] == Fetching(i)
  }

  /** Indices are claimed in order, each once; a claimed index is being fetched by exactly
      one worker or has its result; unclaimed ones are untouched. */
  ghost predicate Invariant(s: State, fetch: Fetch) {
    var n, m := |s.queue|, Min(s.cursor, |s.queue|);
    && |s.results| == n && |s.workers| >= 1
    && |s.claimed| == m && (forall i | 0 <= i < m :: s.claimed[i] == i)
    && (forall w | 0 <= w < |s.workers| && s.workers[w].Fetching? :: s.workers[w].index < m)
    && (forall w, v | 0 <= w < v < |s.workers| && s.workers[w].Fetching? && s.workers[v].Fetching? ::
          s.workers[w].index != s.workers[v].index)
    && (forall i | 0 <= i < n :: s.results[i].None? || s.results[i] == FetchArticle(s.queue[i], fetch))
    && (forall i | m <= i < n :: s.results[i].None?)
    && (!s.aborted ==> forall i | 0 <= i < m :: InHand(s, fetch, i))
    && (!s.aborted ==> forall w | 0 <= w < |s.workers| && s.workers[w].Done? :: s.cursor >= n)
  }

  lemma InitialInvariant(queue: seq<Queued>, concurrency: int, fetch: Fetch)
    ensures Invariant(Initial(queue, concurrency), fetch)
  {
  }

  lemma StepKeepsInvariant(s: State, fetch: Fetch, e: Event)
    requires Invariant(s, fetch) && Enabled(s, fetch, e)
    ensures Invariant(Step(s, fetch, e), fetch)
  {
    match e
    case Proceed(w) =>
      if !s.aborted && s.cursor < |s.queue| { ClaimKeeps(s, fetch, w); } else { RetireKeeps(s, fetch, w); }
    case Arrive(w, got) => ArriveKeeps(s, fetch, w, got);
    case Abort =>
  }

  lemma ClaimKeeps(s: State, fetch: Fetch, w: nat)
    requires Invariant(s, fetch) && Enabled(s, fetch, Proceed(w)) && !s.aborted && s.cursor < |s.queue|
    ensures Invariant(Step(s, fetch, Proceed(w)), fetch)
  {
    var s' := Step(s, fetch, Proceed(w));
    forall i | 0 <= i < s'.cursor
      ensures InHand(s', fetch, i)
    {
      if i == s.cursor {
        assert s'.workers[w] == Fetching(i);
      } else if s.results[i] != FetchArticle(s.queue[i], fetch) {
        assert InHand(s, fetch, i);
        var v :| 0 <= v < |s.workers| && s.workers[v] == Fetching(i);
        assert s'.workers[v] == Fetching(i);
      }
    }
  }

  lemma RetireKeeps(s: State, fetch: Fetch, w: nat)
    requires Invariant(s, fetch) && Enabled(s, fetch, Proceed(w)) && (s.aborted || s.cursor >= |s.queue|)
    ensures Invariant(Step(s, fetch, Proceed(w)), fetch)
  {
    var s' := Step(s, fetch, Proceed(w));
    if !s.aborted {
      forall i | 0 <= i < |s.queue|
        ensures InHand(s', fetch, i)
      {
        assert InHand(s, fetch, i);
        if s.results[i] != FetchArticle(s.queue[i], fetch) {
          var v :| 0 <= v < |s.workers| && s.workers[v] == Fetching(i);
          assert s'.workers[v] == Fetching(i);
        }
      }
    }
  }

  lemma ArriveKeeps(s: State, fetch: Fetch, w: nat, got: Option<Article>)
    requires Invariant(s, fetch) && Enabled(s, fetch, Arrive(w, got))
    ensures Invariant(Step(s, fetch, Arrive(w, got)), fetch)
  {
    var s', j := Step(s, fetch, Arrive(w, got)), s.workers[w].index;
    if !s.aborted {
      forall i | 0 <= i < Min(s.cursor, |s.queue|)
        ensures InHand(s', fetch, i)
      {
        if i != j && s.results[i] != FetchArticle(s.queue[i], fetch) {
          assert InHand(s, fetch, i);
          var v :| 0 <= v < |s.workers| && s.workers[v] == Fetching(i);
          assert s'.workers[v] == Fetching(i);
        }
      }
    }
  }

  lemma {:induction false} RunKeepsInvariant(s: State, fetch: Fetch, es: seq<Event>)
    requires Invariant(s, fetch) && Possible(s, fetch, es)
    ensures Invariant(Run(s, fetch, es), fetch) && Run(s, fetch, es).queue == s.queue
    decreases |es|
  {
    if es != [] {
      hide Invariant;
      StepKeepsInvariant(s, fetch, es[0]);
      RunKeepsInvariant(Step(s, fetch, es[0]), fetch, es[1..]);
    }
  }

  // ----- Concurrency is unobservable -----

  function FetchAll(queue: seq<Queued>, fetch: Fetch): (rs: seq<Option<Article>>)
    ensures |rs| == |queue| && forall i | 0 <= i < |rs| :: rs[i] == FetchArticle(queue[i], fetch)
  {
    seq(|queue|, i requires 0 <= i < |queue| => FetchArticle(queue[i], fetch))
  }

  /** Fetch one after the other, then drop what failed. */
  function Sequential(queue: seq<Queued>, fetch: Fetch): seq<Article> {
    Present(FetchAll(queue, fetch))
  }

  /** Any number of workers, any interleaving, no abort: every index was claimed once, in
      order, and the output is the sequential one. */
  lemma ConcurrencyUnobservable(queue: seq<Queued>, concurrency: int, fetch: Fetch, es: seq<Event>)
    requires Possible(Initial(queue, concurrency), fetch, es)
    requires var s := Run(Initial(queue, concurrency), fetch, es); Finished(s) && !s.aborted
    ensures var s := Run(Initial(queue, concurrency), fetch, es);
            && |s.claimed| == |queue| && (forall i | 0 <= i < |queue| :: s.claimed[i] == i)
            && Present(s.results) == Sequential(queue, fetch)
  {
    var s0 := Initial(queue, concurrency);
    InitialInvariant(queue, concurrency, fetch);
    RunKeepsInvariant(s0, fetch, es);
    AllResultsIn(Run(s0, fetch, es), fetch);
  }

  lemma AllResultsIn(s: State, fetch: Fetch)
    requires Invariant(s, fetch) && Finished(s) && !s.aborted
    ensures |s.claimed| == |s.queue| && forall i | 0 <= i < |s.queue| :: s.claimed[i] == i
    ensures Present(s.results) == Sequential(s.queue, fetch)
  {
    assert s.workers[0].Done?;
    forall i | 0 <= i < |s.queue|
      ensures s.results[i] == FetchArticle(s.queue[i], fetch)
    {
      assert InHand(s, fetch, i);
    }
    assert s.results == FetchAll(s.queue, fetch);
  }

  // ----- The output, source by source -----

  /** What the first m items of one source give: their bodies with its key and their ranks, those
      that could be fetched. */
  function SourceOutput(s: Source, fetch: Fetch, m: nat): seq<Article>
    requires m > 0 ==> s.feed.Some? && m <= |s.feed.value|
  {
    if m == 0 then []
    else
      var body := fetch(Queued(s.key, m, s.feed.value[m - 1]));
      SourceOutput(s, fetch, m - 1) + if body.Some? then [Article(s.key, m, body.value)] else []
  }

  function Output(sources: seq<Source>, perSource: nat, fetch: Fetch): seq<Article> {
    if sources == [] then []
    else
      var s := sources[|sources| - 1];
      Output(sources[..|sources| - 1], perSource, fetch) + SourceOutput(s, fetch, Quota(s, perSource))
  }

  lemma PresentStep(rs: seq<Option<Article>>)
    requires rs != []
    ensures var n := |rs| - 1;
            Present(rs) == if rs[n].Some? then Present(rs[..n]) + [rs[n].value] else Present(rs[..n])
  {
  }

  lemma {:induction false} PresentAppend(a: seq<Option<Article>>, b: seq<Option<Article>>)
    ensures Present(a + b) == Present(a) + Present(b)
  {
    if b == [] {
      assert a + b == a;
    } else {
      hide Present;
      var n := |b| - 1;
      PresentAppend(a, b[..n]);
      PresentStep(b);
      PresentStep(a + b);
      assert (a + b)[..|a + b| - 1] == a + b[..n];
    }
  }

  /** The entries of one source, from position at on. */
  lemma {:induction false} SourcePresent(queue: seq<Queued>, at: nat, s: Source, perSource: nat, fetch: Fetch, m: nat)
    requires HoldsSource(queue, at, s, perSource) && m <= Quota(s, perSource)
    ensures Present(FetchAll(queue[at..at + m], fetch)) == SourceOutput(s, fetch, m)
  {
    if m > 0 {
      hide Present, HoldsSource, FetchAll;
      FitsQueue(queue, at, s, perSource);
      SourcePresent(queue, at, s, perSource, fetch, m - 1);
      HeldAt(queue, at, s, perSource, m - 1);
      FetchLast(queue[at..at + m], fetch);
      assert queue[at..at + m][..m - 1] == queue[at..at + m - 1];
    } else {
      assert FetchAll(queue[at..at + m], fetch) == [];
    }
  }

  lemma HeldAt(queue: seq<Queued>, at: nat, s: Source, perSource: nat, i: nat)
    requires HoldsSource(queue, at, s, perSource) && i < Quota(s, perSource)
    ensures queue[at + i] == Queued(s.key, i + 1, s.feed.value[i])
  {
  }

  lemma FetchLast(q: seq<Queued>, fetch: Fetch)
    requires q != []
    ensures var n := |q| - 1; var r := FetchArticle(q[n], fetch);
            Present(FetchAll(q, fetch)) == Present(FetchAll(q[..n], fetch)) + if r.Some? then [r.value] else []
  {
    hide Present;
    PresentStep(FetchAll(q, fetch));
    assert FetchAll(q, fetch)[..|q| - 1] == FetchAll(q[..|q| - 1], fetch);
  }

  lemma {:induction false} SequentialIsOutput(queue: seq<Queued>, sources: seq<Source>, perSource: nat, fetch: Fetch, k: nat)
    requires HoldsTops(queue, sources, perSource) && k <= |sources|
    ensures Before(sources, perSource, k) <= |queue|
    ensures Present(FetchAll(queue[..Before(sources, perSource, k)], fetch)) == Output(sources[..k], perSource, fetch)
  {
    hide Present, HoldsSource, SourceOutput, Quota, Before, FetchAll, Output;
    if k == 0 {
      NothingPresent(sources, perSource, fetch);
    } else {
      var s, a := sources[k - 1], Before(sources, perSource, k - 1);
      SequentialIsOutput(queue, sources, perSource, fetch, k - 1);
      BeforeStep(sources, perSource, k - 1);
      assert HoldsSource(queue, a, s, perSource);
      FitsQueue(queue, a, s, perSource);
      SourcePresent(queue, a, s, perSource, fetch, Quota(s, perSource));
      FetchSplit(queue, a, a + Quota(s, perSource), fetch);
      OutputStep(sources, perSource, fetch, k - 1);
    }
  }

  lemma FetchSplit(queue: seq<Queued>, a: nat, b: nat, fetch: Fetch)
    requires a <= b <= |queue|
    ensures Present(FetchAll(queue[..b], fetch)) == Present(FetchAll(queue[..a], fetch)) + Present(FetchAll(queue[a..b], fetch))
  {
    hide Present;
    assert FetchAll(queue[..b], fetch) == FetchAll(queue[..a], fetch) + FetchAll(queue[a..b], fetch);
    PresentAppend(FetchAll(queue[..a], fetch), FetchAll(queue[a..b], fetch));
  }

  lemma OutputStep(sources: seq<Source>, perSource: nat, fetch: Fetch, k: nat)
    requires k < |sources|
    ensures Output(sources[..k + 1], perSource, fetch)
         == Output(sources[..k], perSource, fetch) + SourceOutput(sources[k], fetch, Quota(sources[k], perSource))
  {
    assert sources[..k + 1][..k] == sources[..k];
  }

  lemma NothingPresent(sources: seq<Source>, perSource: nat, fetch: Fetch)
    ensures Present(FetchAll([], fetch)) == [] == Output([], perSource, fetch) && Before(sources, perSource, 0) == 0
  {
  }

  lemma FitsQueue(queue: seq<Queued>, at: nat, s: Source, perSource: nat)
    requires HoldsSource(queue, at, s, perSource)
    ensures at + Quota(s, perSource) <= |queue|
  {
  }

  /** Without an abort, any number of workers and any interleaving deliver, source after source,
      the first items of each feed that could be fetched, under their own source and rank. */
  lemma CollectsFirstItems(queue: seq<Queued>, sources: seq<Source>, perSource: nat, concurrency: int, fetch: Fetch,
                           es: seq<Event>)
    requires HoldsTops(queue, sources, perSource) && Possible(Initial(queue, concurrency), fetch, es)
    requires var s := Run(Initial(queue, concurrency), fetch, es); Finished(s) && !s.aborted
    ensures Present(Run(Initial(queue, concurrency), fetch, es).results) == Output(sources, perSource, fetch)
  {
    hide Present, HoldsTops;
    ConcurrencyUnobservable(queue, concurrency, fetch, es);
    WholeOutput(queue, sources, perSource, fetch);
  }

  lemma WholeOutput(queue: seq<Queued>, sources: seq<Source>, perSource: nat, fetch: Fetch)
    requires HoldsTops(queue, sources, perSource)
    ensures Sequential(queue, fetch) == Output(sources, perSource, fetch)
  {
    hide Present, HoldsSource;
    SequentialIsOutput(queue, sources, perSource, fetch, |sources|);
    assert queue[..|queue|] == queue && sources[..|sources|] == sources;
  }
}
