/** What a pool entry says about the run so far, counted on the reports themselves. */
module PoolHistory {
  import opened Wrappers
  import opened ProxyPool
  import opened PoolRuns

  predicate ReportsOn(e: Event, id: string) {
    e.ReportCall? && e.id == id
  }

  predicate FailureOf(e: Event, id: string) {
    ReportsOn(e, id) && (e.outcome == ConnectFailure || e.outcome == UpstreamFailure)
  }

  predicate SuccessOf(e: Event, id: string) {
    ReportsOn(e, id) && e.outcome == Succeeded
  }

  /** Failure reports for id after its last success report. */
  function FailuresInARow(evs: seq<Event>, id: string): nat {
    if evs == [] then 0
    else
      var e, before := evs[|evs| - 1], evs[..|evs| - 1];
      if SuccessOf(e, id) then 0
      else FailuresInARow(before, id) + if FailureOf(e, id) then 1 else 0
  }

  /** When id last failed; a success does not erase it. */
  function LastFailure(evs: seq<Event>, id: string): (r: Option<int>) {
    if evs == [] then None
    else if FailureOf(evs[|evs| - 1], id) then Some(evs[|evs| - 1].t)
    else LastFailure(evs[..|evs| - 1], id)
  }

  lemma {:induction false} RunSnoc(s: State, cfg: Config, evs: seq<Event>, e: Event)
    requires WellFormedRun(evs) && WellFormedEvent(e)
    ensures WellFormedRun(evs + [e]) && Run(s, cfg, evs + [e]) == Step(Run(s, cfg, evs), cfg, e)
    decreases |evs|
  {
    hide Step;
    var all := evs + [e];
    if evs == [] {
      assert all == [e] && all[1..] == [];
      assert Run(s, cfg, all) == Run(Step(s, cfg, e), cfg, []);
    } else {
      assert all[0] == evs[0] && all[1..] == evs[1..] + [e];
      RunSnoc(Step(s, cfg, evs[0]), cfg, evs[1..], e);
    }
  }

  /** How the reports on id determine its entry. Parked means failed at least once and at least
      threshold times since the last success, until one cooldown after the last failure. */
  ghost predicate TellsHistory(entry: Entry, cfg: Config, evs: seq<Event>, id: string) {
    && entry.id == id
    && entry.failures == FailuresInARow(evs, id)
    && entry.lastFailureAt == LastFailure(evs, id)
    && (entry.cooldownUntil.Some? <==> FailuresInARow(evs, id) >= 1 && FailuresInARow(evs, id) >= cfg.threshold)
    && (entry.cooldownUntil.Some? ==>
          LastFailure(evs, id).Some? && entry.cooldownUntil.value == LastFailure(evs, id).value + cfg.cooldown)
  }

  ghost predicate Distinct(ids: seq<string>) {
    forall i, j | 0 <= i < j < |ids| :: ids[i] != ids[j]
  }

  ghost predicate AllTell(s: State, cfg: Config, evs: seq<Event>, ids: seq<string>) {
    |s.entries| == |ids| && forall i | 0 <= i < |ids| :: TellsHistory(s.entries[i], cfg, evs, ids[i])
  }

  lemma StepTells(s: State, cfg: Config, evs: seq<Event>, ids: seq<string>, e: Event)
    requires Distinct(ids) && AllTell(s, cfg, evs, ids) && WellFormedEvent(e)
    ensures AllTell(Step(s, cfg, e), cfg, evs + [e], ids)
  {
    var s' := Step(s, cfg, e);
    assert (evs + [e])[..|evs|] == evs;
    if e.NextCall? { NextKeepsEntries(s, cfg, e); }
    forall i | 0 <= i < |ids|
      ensures |s'.entries| == |ids| && TellsHistory(s'.entries[i], cfg, evs + [e], ids[i])
    {
      assert TellsHistory(s.entries[i], cfg, evs, ids[i]);
      if e.ReportCall? { ReportTells(s, cfg, evs, ids, e, i); }
    }
  }

  lemma NextKeepsEntries(s: State, cfg: Config, e: Event)
    requires WellFormedEvent(e) && e.NextCall?
    ensures Step(s, cfg, e).entries == s.entries
  {
    hide HealthyBelow, Scan, Earliest;
  }

  lemma ReportTells(s: State, cfg: Config, evs: seq<Event>, ids: seq<string>, e: Event, i: nat)
    requires Distinct(ids) && AllTell(s, cfg, evs, ids) && e.ReportCall? && i < |ids|
    ensures var s' := Report(s, cfg, e.id, e.outcome, e.t);
            |s'.entries| == |ids| && TellsHistory(s'.entries[i], cfg, evs + [e], ids[i])
  {
    assert forall j | 0 <= j < |ids| :: TellsHistory(s.entries[j], cfg, evs, ids[j]);
    var found := FindId(s.entries, e.id);
    assert e.id == ids[i] ==> found == Some(i) by {
      if e.id == ids[i] { assert s.entries[i].id == e.id; }
    }
    LastEvent(evs, e, ids[i]);
    hide FailuresInARow, LastFailure, FindId;
  }

  lemma LastEvent(evs: seq<Event>, e: Event, id: string)
    ensures FailuresInARow(evs + [e], id)
         == if SuccessOf(e, id) then 0 else FailuresInARow(evs, id) + if FailureOf(e, id) then 1 else 0
    ensures LastFailure(evs + [e], id) == if FailureOf(e, id) then Some(e.t) else LastFailure(evs, id)
  {
    assert (evs + [e])[..|evs|] == evs;
  }

  /** On every run from a fresh pool every entry tells what was reported about it. */
  lemma {:induction false} EntriesTellHistory(ids: seq<string>, cfg: Config, evs: seq<Event>)
    requires Distinct(ids) && WellFormedRun(evs)
    ensures AllTell(Run(Fresh(ids), cfg, evs), cfg, evs, ids)
    decreases |evs|
  {
    if evs == [] {
      assert Run(Fresh(ids), cfg, evs) == Fresh(ids);
    } else {
      hide Step, AllTell;
      var e, before := evs[|evs| - 1], evs[..|evs| - 1];
      EntriesTellHistory(ids, cfg, before);
      RunSnoc(Fresh(ids), cfg, before, e);
      StepTells(Run(Fresh(ids), cfg, before), cfg, before, ids, e);
      assert before + [e] == evs;
    }
  }

  /** The clock readings at which entry i is skipped: exactly while the failures since its last
      success have reached the threshold and the cooldown of the latest has not run out. */
  lemma UnhealthyIff(ids: seq<string>, cfg: Config, evs: seq<Event>, i: nat, t: int)
    requires Distinct(ids) && WellFormedRun(evs) && i < |ids|
    ensures var s := Run(Fresh(ids), cfg, evs);
            && |s.entries| == |ids|
            && (!Healthy(s.entries[i], t) <==>
                  && FailuresInARow(evs, ids[i]) >= 1 && FailuresInARow(evs, ids[i]) >= cfg.threshold
                  && LastFailure(evs, ids[i]).Some? && t < LastFailure(evs, ids[i]).value + cfg.cooldown)
  {
    EntriesTellHistory(ids, cfg, evs);
    assert TellsHistory(Run(Fresh(ids), cfg, evs).entries[i], cfg, evs, ids[i]);
  }

  lemma {:induction false} NoFailureSince(before: seq<Event>, e: Event, after: seq<Event>, id: string)
    requires SuccessOf(e, id) && forall k | 0 <= k < |after| :: !FailureOf(after[k], id)
    ensures FailuresInARow(before + [e] + after, id) == 0
    decreases |after|
  {
    var evs := before + [e] + after;
    if after == [] {
      assert evs[|evs| - 1] == e;
    } else {
      var n := |after| - 1;
      NoFailureSince(before, e, after[..n], id);
      assert evs[|evs| - 1] == after[n] && evs[..|evs| - 1] == before + [e] + after[..n];
    }
  }

  /** A success clears the entry: it stays healthy, at every clock reading, until it fails again. */
  lemma SuccessClears(ids: seq<string>, cfg: Config, before: seq<Event>, e: Event, after: seq<Event>, i: nat, t: int)
    requires Distinct(ids) && i < |ids| && SuccessOf(e, ids[i]) && WellFormedRun(before + [e] + after)
    requires forall k | 0 <= k < |after| :: !FailureOf(after[k], ids[i])
    ensures var s := Run(Fresh(ids), cfg, before + [e] + after);
            |s.entries| == |ids| && s.entries[i].failures == 0 && Healthy(s.entries[i], t)
  {
    var evs := before + [e] + after;
    NoFailureSince(before, e, after, ids[i]);
    EntriesTellHistory(ids, cfg, evs);
    assert TellsHistory(Run(Fresh(ids), cfg, evs).entries[i], cfg, evs, ids[i]);
  }
}
