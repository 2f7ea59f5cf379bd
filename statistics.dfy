/**
 * One run of the periodic statistics task that `startStatsTimer` schedules:
 * fetch the per-server statistics and tell the statistics bar either the
 * snapshot or that the search is still waiting for its first results.
 */
module Statistics {
  import opened Wrappers

  /** `ServerStatistics`; only the total object count the decision reads is modelled. */
  datatype ServerStatistics = ServerStatistics(totalObjects: int)

  /** `search.getStatistics()`: server name to that server's statistics. */
  type Snapshot = map<string, ServerStatistics>

  /** What `getStatistics()` does on one tick: returns, or throws one of the three exceptions the task catches. */
  datatype StatsFetch = Fetched(snapshot: Snapshot) | SearchClosed | IOFailure | Interrupted

  /** What the task hands to the statistics bar. */
  datatype StatsUpdate = ShowCounts(snapshot: Snapshot) | ShowMessage(message: string)

  /** What the statistics bar shows. */
  datatype StatsView = Unset | Indeterminate(message: string) | Counts(snapshot: Snapshot)

  const WaitingMessage := "Waiting for First Results"
  const InitializingMessage := "Initializing Search"

  predicate AnyServerHasObjects(serverStats: Snapshot)
  {
    exists name :: name in serverStats && serverStats[name].totalObjects != 0
  }

  /** The `hasStats` flag: set by the first server whose total is non-zero, after which the loop breaks. */
  method HasStats(serverStats: Snapshot) returns (hasStats: bool)
    ensures hasStats <==> AnyServerHasObjects(serverStats)
  {
    hasStats := false;
    var unvisited := serverStats.Values;
    while unvisited != {}
      invariant unvisited <= serverStats.Values
      invariant forall s :: s in serverStats.Values && s !in unvisited ==> s.totalObjects == 0
      decreases unvisited
    {
      var s :| s in unvisited;
      if s.totalObjects != 0 {
        hasStats := true;
        break;
      }
      unvisited := unvisited - {s};
    }
    if !hasStats {
      forall name | name in serverStats
        ensures serverStats[name].totalObjects == 0
      {
        assert serverStats[name] in serverStats.Values;
      }
    }
  }

  /** The update one tick hands to the statistics bar; nothing when the fetch threw. */
  function TickUpdate(f: StatsFetch): Option<StatsUpdate>
  {
    match f
    case Fetched(serverStats) =>
      if AnyServerHasObjects(serverStats) then Some(ShowCounts(serverStats))
      else Some(ShowMessage(WaitingMessage))
    case _ => None
  }

  function ApplyUpdate(view: StatsView, u: Option<StatsUpdate>): StatsView
  {
    match u
    case None => view
    case Some(ShowCounts(serverStats)) => Counts(serverStats)
    case Some(ShowMessage(message)) => Indeterminate(message)
  }

  /** The statistics bar after a run of ticks, oldest first. */
  function ViewAfterTicks(view: StatsView, fetches: seq<StatsFetch>): StatsView
  {
    if fetches == [] then view
    else ApplyUpdate(ViewAfterTicks(view, fetches[..|fetches| - 1]), TickUpdate(fetches[|fetches| - 1]))
  }

  /** An empty snapshot counts as no results yet. */
  lemma EmptySnapshotWaits(view: StatsView)
    ensures ViewAfterTicks(view, [Fetched(map[])]) == Indeterminate(WaitingMessage)
  {
    assert [Fetched(map[])][..0] == [];
  }

  /** Ticks whose fetch threw leave the bar as it was. */
  lemma {:induction false} FailedTicksKeepView(view: StatsView, fetches: seq<StatsFetch>)
    requires forall i :: 0 <= i < |fetches| ==> !fetches[i].Fetched?
    ensures ViewAfterTicks(view, fetches) == view
  {
    if fetches != [] {
      FailedTicksKeepView(view, fetches[..|fetches| - 1]);
    }
  }

  /** After a run of ticks the bar reflects the last snapshot fetched: its counts iff some server has a non-zero total. */
  lemma {:induction false} LastSnapshotDecides(view: StatsView, fetches: seq<StatsFetch>, j: nat)
    requires j < |fetches| && fetches[j].Fetched?
    requires forall i :: j < i < |fetches| ==> !fetches[i].Fetched?
    ensures ViewAfterTicks(view, fetches)
         == if AnyServerHasObjects(fetches[j].snapshot) then Counts(fetches[j].snapshot)
            else Indeterminate(WaitingMessage)
  {
    if j == |fetches| - 1 {
    } else {
      LastSnapshotDecides(view, fetches[..|fetches| - 1], j);
    }
  }

  /** Every server of `before` is still present in `after` with a total at least as large. */
  predicate TotalsGrow(before: Snapshot, after: Snapshot)
  {
    forall name :: name in before ==>
      name in after && 0 <= before[name].totalObjects <= after[name].totalObjects
  }

  /** Once some server reports objects, a later snapshot whose totals only grew is forwarded too. */
  lemma CountsPersist(before: Snapshot, after: Snapshot)
    requires TotalsGrow(before, after) && AnyServerHasObjects(before)
    ensures TickUpdate(Fetched(after)) == Some(ShowCounts(after))
  {
    var name :| name in before && before[name].totalObjects != 0;
    assert after[name].totalObjects != 0;
  }
}
