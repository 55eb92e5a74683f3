/** The server's methods are runs of the step systems: what a flush, a reload, a probe
    tick, retention and an attaching page do in one go, the steps do one by one. */
module Cadence {
  import opened Prelude
  import opened Types
  import opened StateSpec
  import opened JournalSpec
  import opened Engine

  lemma RunOne(s: Sys, a: Step)
    ensures Run(s, [a]) == Next(s, a)
    ensures ValidRun(s, [a]) <==> Enabled(s, a)
  {
    RunCons(s, a, []);
    assert [a] + [] == [a];
  }

  function FlushSteps(m: Mem, visits: DrainOrder, fails: bool): seq<Step> {
    if DrainBatch(m, visits).Empty() then [Drain(visits)]
    else [Drain(visits), if fails then FailFlight else CommitFlight]
  }

  /** A flush: nothing to write, or a commit, or a failure that hands the batch back. */
  lemma FlushIsRun(s: Sys, visits: DrainOrder, fails: bool)
    requires s.flight.None? && DrainOrderOf(visits, s.mem)
    ensures ValidRun(s, FlushSteps(s.mem, visits, fails))
    ensures var b, t := DrainBatch(s.mem, visits), Run(s, FlushSteps(s.mem, visits, fails));
            && t.flight.None?
            && (if fails && !b.Empty() then t.j == s.j && t.mem == RestoreMem(DrainMem(s.mem), b)
                else t.mem == DrainMem(s.mem) && (b.Empty() ==> t.j == s.j) && (!b.Empty() ==> t.j == Commit(s.j, b)))
  {
    if DrainBatch(s.mem, visits).Empty() {
      RunOne(s, Drain(visits));
    } else {
      RunTwo(s, Drain(visits), if fails then FailFlight else CommitFlight);
    }
  }

  /** A reload that nothing races: read, then merge what was read. */
  lemma ReloadIsRun(s: Sys, order: seq<string>, lost: set<string>)
    requires Listing(order, s.j.rows.Keys)
    ensures ValidRun(s, [ReadList(order, lost), MergeList(|s.loads|)])
    ensures var t := Run(s, [ReadList(order, lost), MergeList(|s.loads|)]);
            t.mem == LoadMem(s.mem, Snapshot(order, Listed(s.j.rows, lost))) && t.j == s.j && t.loads == s.loads
  {
    RunTwo(s, ReadList(order, lost), MergeList(|s.loads|));
  }

  /** A probe tick that finds the gate open probes, whatever was before. */
  lemma OpenTickIsRun(s: Sys, results: map<string, LivePart>, now: int, visited: seq<string>)
    requires Listing(visited, results.Keys)
    ensures ValidRun(s, [Tick(true), Sense(Probe(results, now, visited))])
    ensures var t := Run(s, [Tick(true), Sense(Probe(results, now, visited))]);
            t.probed && t.mem == ProbeMem(s.mem, results, now, visited) && t.j == s.j
  {
    RunTwo(s, Tick(true), Sense(Probe(results, now, visited)));
  }

  /** One that finds it closed blanks if there was a probe since the last blanking. */
  lemma ClosedTickIsRun(s: Sys)
    ensures ValidRun(s, [Tick(false)])
    ensures var t := Run(s, [Tick(false)]);
            !t.probed && t.j == s.j && t.mem == if s.probed then ClearMem(s.mem) else s.mem
  {
    RunOne(s, Tick(false));
  }

  function PruneSteps(now: int, later: int): seq<Step> {
    [Sense(PruneMemory(now)), Manage(PruneHostRows(now - 604800))] + [Manage(PruneEventRows(later - 7776000))]
  }

  /** Retention, when both deletions work. */
  lemma PruneIsRun(s: Sys, now: int, later: int)
    ensures ValidRun(s, PruneSteps(now, later))
    ensures var t := Run(s, PruneSteps(now, later));
            && t.mem == DropHosts(s.mem, Stale(s.mem.obs, now - 604800))
            && t.j == s.j.(observed := PruneHosts(s.j.observed, now - 604800), events := Since(s.j.events, later - 7776000))
  {
    var a, b, c := Sense(PruneMemory(now)), Manage(PruneHostRows(now - 604800)), Manage(PruneEventRows(later - 7776000));
    TwoThenOne(s, a, b, c);
    PruneEffect(s, a, b, c, now, later);
  }

  lemma PruneEffect(s: Sys, a: Step, b: Step, c: Step, now: int, later: int)
    requires a == Sense(PruneMemory(now)) && b == Manage(PruneHostRows(now - 604800))
    requires c == Manage(PruneEventRows(later - 7776000))
    ensures Enabled(s, a) && Enabled(Next(s, a), b) && Enabled(Next(Next(s, a), b), c)
    ensures var t := Next(Next(Next(s, a), b), c);
            && t.mem == DropHosts(s.mem, Stale(s.mem.obs, now - 604800))
            && t.j == s.j.(observed := PruneHosts(s.j.observed, now - 604800), events := Since(s.j.events, later - 7776000))
  {
    var s1 := Next(s, a);
    var s2 := Next(s1, b);
    assert s1.mem == DropHosts(s.mem, Stale(s.mem.obs, now - OBSERVED_TTL)) && s1.j == s.j;
    assert s2.mem == s1.mem && s2.j == s.j.(observed := PruneHosts(s.j.observed, now - 604800));
  }
}
