/** Reachable scalars are ordered: up is a sighting, and whoever answered ICMP has
    been up. It holds at once in memory, in the batch in flight, in every pending
    listing and in the journal, for as long as the look-ups of the backfill read
    enough of the log; how much that is, is stated exactly. */
module Ordering {
  import opened Prelude
  import opened Presence
  import opened Types
  import opened StateSpec
  import opened JournalSpec
  import opened Engine
  import opened WriteBehind
  import opened Devices

  ghost predicate OrderedDevs(devs: map<string, Dev>) {
    forall mac :: mac in devs ==> Ordered(devs[mac].pres)
  }

  ghost predicate OrderedRows(rows: map<string, Device>) {
    forall mac :: mac in rows ==> Ordered(rows[mac].pres)
  }

  ghost predicate OrderedSeen(seen: seq<SeenUpdate>) {
    forall i :: 0 <= i < |seen| ==> Ordered(seen[i].pres)
  }

  ghost predicate OrderedLoads(loads: seq<Snapshot>) {
    forall k :: 0 <= k < |loads| ==> OrderedRows(loads[k].rows)
  }

  ghost predicate PositiveLog(legacy: Option<seq<LogRow>>) {
    legacy.Some? ==> forall i :: 0 <= i < |legacy.value| ==> legacy.value[i].ts > 0
  }

  ghost predicate OrderedSys(s: Sys) {
    && OrderedDevs(s.mem.devs) && OrderedRows(s.j.rows)
    && OrderedSeen(FlightSeen(s)) && OrderedLoads(s.loads)
    && PositiveLog(s.j.legacy)
  }

  predicate Positive(st: Step) {
    st.Sense? && TimeOf(st.o).Some? ==> TimeOf(st.o).value > 0
  }

  /** One backfill step reads enough of what the log has on a device: an up time
      without any sighting must not be later than the sighting on record, and an
      ICMP answer without an up time needs an up time on record. */
  predicate ReadsEnough(log: Scal, row: Scal, q: Lookups) {
    && (q.up && !q.any ==> log.up <= Max(row.seen, 0))
    && (q.icmp && log.icmp && !q.up ==> row.up > 0)
  }

  predicate StepReadsEnough(s: Sys, st: Step) {
    st.Manage? && st.a.Backfill? && s.j.legacy.Some? && st.a.mac in s.j.rows ==>
      ReadsEnough(Aggregate(s.j.legacy.value, st.a.mac), s.j.rows[st.a.mac].pres, st.a.q)
  }

  lemma {:induction false} NewestOrdered(log: seq<LogRow>, mac: string)
    requires forall i :: 0 <= i < |log| ==> log[i].ts > 0
    ensures var up, any := Newest(log, mac, true), Newest(log, mac, false);
            && (up.Some? ==> any.Some? && 0 < up.value <= any.value)
            && (any.Some? ==> any.value > 0)
            && (LoggedIcmp(log, mac) ==> up.Some?)
  {
    if log != [] {
      var rest := log[..|log| - 1];
      NewestOrdered(rest, mac);
      if LoggedIcmp(log, mac) && !(log[|log| - 1].mac == mac && log[|log| - 1].signal == LogIcmp) {
        var i :| 0 <= i < |log| && log[i].mac == mac && log[i].signal == LogIcmp;
        assert rest[i] == log[i];
      }
    }
  }

  lemma {:induction false} JoinedOrdered(v: Scal, seen: seq<SeenUpdate>, mac: string)
    requires Ordered(v) && OrderedSeen(seen)
    ensures Ordered(Joined(v, seen, mac))
  {
    if seen != [] {
      JoinedOrdered(v, seen[..|seen| - 1], mac);
    }
  }

  lemma FoldedOrderedIff(row: Scal, log: Scal, q: Lookups)
    requires Ordered(row) && Ordered(log) && (log.up >= 0 && log.seen >= 0)
    ensures Ordered(Join(row, Scal(q.icmp && log.icmp, if q.up then log.up else 0, if q.any then log.seen else 0))) <==>
            ReadsEnough(log, row, q)
  {
  }

  /** A backfill step leaves an ordered journal ordered exactly when it reads enough. */
  lemma BackfillOrderedIff(j: Journal, mac: string, q: Lookups)
    requires OrderedRows(j.rows) && PositiveLog(j.legacy)
    ensures OrderedRows(BackfillOne(j, mac, q).rows) <==>
            (j.legacy.Some? && mac in j.rows ==> ReadsEnough(Aggregate(j.legacy.value, mac), j.rows[mac].pres, q))
  {
    var after := BackfillOne(j, mac, q).rows;
    assert forall m :: m in j.rows && m != mac ==> after[m] == j.rows[m];
    if mac in j.rows {
      assert after[mac].pres == Join(j.rows[mac].pres, FoundIn(j.legacy, mac, q));
      if j.legacy.Some? {
        NewestOrdered(j.legacy.value, mac);
        FoldedOrderedIff(j.rows[mac].pres, Aggregate(j.legacy.value, mac), q);
      }
    }
  }

  lemma SenseOrdered(m: Mem, o: Sensing)
    requires OrderedDevs(m.devs) && (TimeOf(o).Some? ==> TimeOf(o).value > 0)
    ensures OrderedDevs(SenseMem(m, o).devs)
  {
    match o
    case Neigh(byMac, now) =>
      assert forall mac :: mac in m.devs ==> SenseMem(m, o).devs[mac] == NeighDev(m.devs[mac], byMac, mac, now);
    case Probe(results, now, order) =>
      var after := SenseMem(m, o).devs;
      assert forall mac :: mac in after ==>
        after[mac] == if mac in results then ProbeDev(m.devs[mac], results[mac], now) else m.devs[mac];
    case _ =>
  }

  lemma ManageOrderedIff(s: Sys, a: Admin)
    requires OrderedRows(s.j.rows) && PositiveLog(s.j.legacy)
    ensures OrderedRows(ManageJournal(s.j, a).rows) <==> StepReadsEnough(s, Manage(a))
    ensures PositiveLog(ManageJournal(s.j, a).legacy)
  {
    if a.Backfill? {
      BackfillOrderedIff(s.j, a.mac, a.q);
    }
  }

  /** A step leaves an ordered system ordered exactly when it reads enough, which
      only a backfill step can fail to do. */
  lemma StepOrderedIff(s: Sys, st: Step)
    requires OrderedSys(s) && Positive(st) && (st.CommitFlight? ==> Keyed(s) && s.flight.Some?)
    ensures OrderedSys(Next(s, st)) <==> StepReadsEnough(s, st)
  {
    match st
    case Sense(o) => SenseOrdered(s.mem, o);
    case Manage(a) => ManageOrderedIff(s, a);
    case Drain(visits) =>
      DirtyRowsMembers(s.mem.devs, visits.devs);
      assert FlightSeen(DrainStep(s, visits)) == DirtyRows(s.mem.devs, visits.devs);
    case CommitFlight => CommitOrdered(s);
    case MergeList(k) => MergeOrdered(s, k);
    case _ =>
  }

  lemma CommitOrdered(s: Sys)
    requires OrderedSys(s) && Keyed(s) && s.flight.Some?
    ensures OrderedSys(CommitStep(s))
  {
    KeyedCommit(s);
    ApplyAt(s.j, s.flight.value);
    forall mac | mac in s.j.rows
      ensures Ordered(CommitStep(s).j.rows[mac].pres)
    {
      JoinedOrdered(s.j.rows[mac].pres, FlightSeen(s), mac);
    }
  }

  lemma MergeOrdered(s: Sys, k: nat)
    requires OrderedSys(s)
    ensures OrderedSys(MergeStep(s, k))
  {
    if k < |s.loads| {
      assert OrderedRows(s.loads[k].rows);
    }
  }

  /** Every state of the run is ordered, the first and the last included. */
  ghost predicate AlwaysOrdered(s: Sys, steps: seq<Step>)
    decreases |steps|
  {
    OrderedSys(s) && (steps != [] ==> AlwaysOrdered(Next(s, steps[0]), steps[1..]))
  }

  /** Every backfill step of the run reads enough, of the log as it then is and for
      the row as it then is. */
  ghost predicate ReadsEnoughThroughout(s: Sys, steps: seq<Step>)
    decreases |steps|
  {
    steps != [] ==> StepReadsEnough(s, steps[0]) && ReadsEnoughThroughout(Next(s, steps[0]), steps[1..])
  }

  /** A run from an ordered state is ordered throughout exactly when its backfill
      steps read enough. Of the clock nothing is assumed but that it is positive. */
  lemma {:induction false} OrderedRunIff(s: Sys, steps: seq<Step>)
    requires OrderedSys(s) && Keyed(s) && ValidRun(s, steps)
    requires forall i :: 0 <= i < |steps| ==> Positive(steps[i])
    ensures AlwaysOrdered(s, steps) <==> ReadsEnoughThroughout(s, steps)
    ensures AlwaysOrdered(s, steps) ==> OrderedSys(Run(s, steps))
    decreases |steps|
  {
    if steps != [] {
      assert Positive(steps[0]) && Enabled(s, steps[0]);
      assert forall i :: 0 <= i < |steps| - 1 ==> steps[1..][i] == steps[i + 1];
      StepOrderedIff(s, steps[0]);
      KeyedStep(s, steps[0]);
      if OrderedSys(Next(s, steps[0])) {
        OrderedRunIff(Next(s, steps[0]), steps[1..]);
      }
    }
  }

  lemma BootOrdered(j: Journal, order: seq<string>, clock: int)
    requires OrderedRows(j.rows) && PositiveLog(j.legacy)
    ensures OrderedSys(Boot(j, order, clock))
  {
  }

  /** The same for every run of a process from its start. */
  lemma ReachableOrderedIff(j: Journal, order: seq<string>, clock: int, steps: seq<Step>)
    requires KeyedJournal(j) && OrderedRows(j.rows) && PositiveLog(j.legacy)
    requires ValidRun(Boot(j, order, clock), steps) && forall i :: 0 <= i < |steps| ==> Positive(steps[i])
    ensures var s := Boot(j, order, clock);
            && (AlwaysOrdered(s, steps) <==> ReadsEnoughThroughout(s, steps))
            && (AlwaysOrdered(s, steps) ==> OrderedSys(Run(s, steps)))
  {
    BootOrdered(j, order, clock);
    KeyedBoot(j, order, clock);
    OrderedRunIff(Boot(j, order, clock), steps);
  }

  /** So the view's test of icmpSeen never changes what it shows in a state that is
      reached with backfill steps that read enough: every device it would catch has
      been up. */
  lemma IcmpTestIsRedundant(j: Journal, order: seq<string>, clock: int, steps: seq<Step>, mac: string, now: int)
    requires KeyedJournal(j) && OrderedRows(j.rows) && PositiveLog(j.legacy)
    requires ValidRun(Boot(j, order, clock), steps) && forall i :: 0 <= i < |steps| ==> Positive(steps[i])
    requires ReadsEnoughThroughout(Boot(j, order, clock), steps)
    ensures var devs := Run(Boot(j, order, clock), steps).mem.devs;
            mac in devs ==> SeenState(devs[mac], now) == SeenStateWithoutIcmp(devs[mac], now)
  {
    var s := Run(Boot(j, order, clock), steps);
    ReachableOrderedIff(j, order, clock, steps);
    if mac in s.mem.devs {
      IcmpTestMattersIff(s.mem.devs[mac], now);
    }
  }

  /** Otherwise it can matter: a device that was never seen has an ICMP answer in the
      log, the look-up of its up time fails, and the reload after the backfill
      brings a state that no probe produces. */
  lemma HalfReadLogShows(j: Journal, log: seq<LogRow>, mac: string, clock: int, now: int) returns (steps: seq<Step>)
    requires KeyedJournal(j) && j.rows.Keys == {mac} && j.rows[mac].pres == NEVER && j.rows[mac].probes == []
    requires j.legacy == Some(log) && PositiveLog(j.legacy) && LoggedIcmp(log, mac)
    ensures steps == [Manage(Backfill(mac, Lookups(true, false, true))), ReadList([mac], {})] + [MergeList(0)]
    ensures ValidRun(Boot(j, [mac], clock), steps) && !AlwaysOrdered(Boot(j, [mac], clock), steps)
    ensures var devs := Run(Boot(j, [mac], clock), steps).mem.devs;
            mac in devs && SeenState(devs[mac], now) != SeenStateWithoutIcmp(devs[mac], now)
  {
    var s := Boot(j, [mac], clock);
    var a, b, c := Manage(Backfill(mac, Lookups(true, false, true))), ReadList([mac], {}), MergeList(0);
    steps := [a, b] + [c];
    HalfRead(j, log, mac, clock);
    RunOfThree(s, a, b, c, steps, mac, now);
  }

  lemma RunOfThree(s: Sys, a: Step, b: Step, c: Step, steps: seq<Step>, mac: string, now: int)
    requires steps == [a, b] + [c] && Enabled(s, a) && Enabled(Next(s, a), b) && Enabled(Next(Next(s, a), b), c)
    requires mac in Next(s, a).j.rows && !Ordered(Next(s, a).j.rows[mac].pres)
    requires var devs := Next(Next(Next(s, a), b), c).mem.devs;
             && mac in devs && devs[mac].live == NO_LIVE && devs[mac].cfg.probes == []
             && devs[mac].pres.icmp && devs[mac].pres.up == 0 && devs[mac].pres.seen > 0
    ensures ValidRun(s, steps) && !AlwaysOrdered(s, steps)
    ensures var devs := Run(s, steps).mem.devs;
            mac in devs && SeenState(devs[mac], now) != SeenStateWithoutIcmp(devs[mac], now)
  {
    TwoThenOne(s, a, b, c);
    NotAlwaysOrdered(s, steps, mac);
    IcmpTestMattersIff(Run(s, steps).mem.devs[mac], now);
  }

  /** The states on the way. */
  lemma HalfRead(j: Journal, log: seq<LogRow>, mac: string, clock: int)
    requires j.rows.Keys == {mac} && j.rows[mac].mac == mac && j.rows[mac].pres == NEVER && j.rows[mac].probes == []
    requires j.legacy == Some(log) && PositiveLog(j.legacy) && LoggedIcmp(log, mac)
    ensures var s1 := Next(Boot(j, [mac], clock), Manage(Backfill(mac, Lookups(true, false, true))));
            var t := Next(Next(s1, ReadList([mac], {})), MergeList(0));
            && s1.j.rows.Keys == {mac} && !Ordered(s1.j.rows[mac].pres)
            && |Next(s1, ReadList([mac], {})).loads| == 1
            && mac in t.mem.devs && t.mem.devs[mac].live == NO_LIVE && t.mem.devs[mac].cfg.probes == []
            && t.mem.devs[mac].pres.icmp && t.mem.devs[mac].pres.up == 0 && t.mem.devs[mac].pres.seen > 0
  {
    var s := Boot(j, [mac], clock);
    var s1 := Next(s, Manage(Backfill(mac, Lookups(true, false, true))));
    var s2 := Next(s1, ReadList([mac], {}));
    NewestOrdered(log, mac);
    assert s1.j.rows[mac] == j.rows[mac].(pres := Scal(true, 0, Aggregate(log, mac).seen));
    NothingLost(s1.j.rows);
    assert s2.loads == [Snapshot([mac], s1.j.rows)];
    assert Next(s2, MergeList(0)).mem.devs[mac] == LoadDev(s.mem.devs, s1.j.rows[mac]);
    assert s.mem.devs[mac] == LoadDev(map[], j.rows[mac]);
  }

  lemma NotAlwaysOrdered(s: Sys, steps: seq<Step>, mac: string)
    requires steps != [] && mac in Next(s, steps[0]).j.rows && !Ordered(Next(s, steps[0]).j.rows[mac].pres)
    ensures !AlwaysOrdered(s, steps)
  {
  }
}
