/** Write-behind refines write-through: however the loops, the handlers, failed
    flushes and racing reloads interleave, memory, flight and journal together
    always hold exactly what a store written at every observation would hold. */
module WriteBehind {
  import opened Prelude
  import opened Presence
  import opened Types
  import opened StateSpec
  import opened JournalSpec
  import opened Engine
  import MacText

  /** The device is in the journal, in memory, and in every listing that some
      reload has yet to merge. */
  ghost predicate Tracked(s: Sys, mac: string) {
    && mac in s.j.rows
    && mac in s.mem.devs
    && forall k :: 0 <= k < |s.loads| ==> mac in s.loads[k].rows
  }

  /** What the system as a whole knows about a device. */
  function Known(s: Sys, mac: string): Scal
    requires mac in s.j.rows && mac in s.mem.devs
  {
    Join(s.mem.devs[mac].pres, Joined(s.j.rows[mac].pres, FlightSeen(s), mac))
  }

  ghost predicate FlightBelow(seen: seq<SeenUpdate>, mac: string, c: Scal) {
    forall i :: 0 <= i < |seen| && seen[i].mac == mac ==> Le(seen[i].pres, c)
  }

  ghost predicate LogBefore(legacy: Option<seq<LogRow>>, clock: int) {
    legacy.Some? ==> forall i :: 0 <= i < |legacy.value| ==> legacy.value[i].ts <= clock
  }

  /** Memory is ahead of the journal only where it is marked dirty or in flight;
      nothing in flight, in a pending listing or in the journal is from the future. */
  ghost predicate Coherent(s: Sys, mac: string) {
    && Tracked(s, mac)
    && var d := s.mem.devs[mac];
       var row := s.j.rows[mac].pres;
       && (d.dirty || Le(d.pres, Joined(row, FlightSeen(s), mac)))
       && FlightBelow(FlightSeen(s), mac, d.pres)
       && (forall k :: 0 <= k < |s.loads| ==> Le(s.loads[k].rows[mac].pres, row))
       && Before(row, s.clock) && Before(d.pres, s.clock)
       && 0 <= s.clock && LogBefore(s.j.legacy, s.clock)
  }

  /** One observation of a device, as a write-through store would record it. */
  function Sighted(v: Scal, o: Sensing, mac: string): Scal {
    match o
    case Neigh(byMac, now) =>
      if mac in byMac then v.(seen := Max(v.seen, now)) else v
    case Probe(results, now, _) =>
      if mac in results && SignalOf(results[mac]) != NoSignal
      then Join(v, Scal(SignalOf(results[mac]) == Icmp, now, now)) else v
    case _ => v
  }

  /** What one step adds to a device's record in a write-through store. */
  function Recorded(v: Scal, legacy: Option<seq<LogRow>>, st: Step, mac: string): Scal {
    match st
    case Sense(o) => Sighted(v, o, mac)
    case Manage(a) =>
      if a.Backfill? && a.mac == mac then Join(v, FoundIn(legacy, mac, a.q)) else v
    case _ => v
  }

  /** The record of a write-through store after a run: it joins every observation
      as it happens, and knows nothing of batches, failures and reloads. */
  function WriteThrough(v: Scal, legacy: Option<seq<LogRow>>, steps: seq<Step>, mac: string): Scal
    decreases |steps|
  {
    if steps == [] then v
    else
      WriteThrough(Recorded(v, legacy, steps[0], mac),
                   if steps[0] == Manage(DropLog) then None else legacy, steps[1..], mac)
  }

  predicate Untracks(st: Step, mac: string) {
    st.Manage? && st.a.Delete? && st.a.done >= 3 && MacText.NormMAC(st.a.mac) == mac
  }

  ghost predicate KeepsTracked(steps: seq<Step>, mac: string) {
    forall i :: 0 <= i < |steps| ==> !Untracks(steps[i], mac)
  }

  // ---- each kind of step ----------------------------------------------------

  /** A sighting moves a record forward by what was sighted, and marks it dirty
      if it moved at all. */
  lemma SightingOfDev(m: Mem, o: Sensing, mac: string, clock: int)
    requires mac in m.devs && Before(m.devs[mac].pres, clock)
    requires TimeOf(o).Some? ==> clock <= TimeOf(o).value
    ensures mac in SenseMem(m, o).devs
    ensures var d, d' := m.devs[mac], SenseMem(m, o).devs[mac];
            && d'.pres == Sighted(d.pres, o, mac)
            && (d'.dirty || (!d.dirty && d' == d.(arp := d'.arp, arpSeen := d'.arpSeen, cfg := d'.cfg, live := d'.live, status := d'.status)))
            && (d.dirty ==> d'.dirty)
  {
    var d := m.devs[mac];
    match o
    case Neigh(byMac, now) =>
      assert SenseMem(m, o).devs[mac] == NeighDev(d, byMac, mac, now);
    case Probe(results, now, _) =>
      assert SenseMem(m, o).devs[mac] == if mac in results then ProbeDev(d, results[mac], now) else d;
    case _ =>
      assert SenseMem(m, o).devs == m.devs;
  }

  lemma SightedJoins(v: Scal, w: Scal, o: Sensing, mac: string)
    ensures Sighted(Join(v, w), o, mac) == Join(Sighted(v, o, mac), w)
    ensures Le(v, Sighted(v, o, mac))
  {
  }

  lemma SenseCoherent(s: Sys, o: Sensing, mac: string)
    requires Coherent(s, mac) && TimelyStep(s, Sense(o))
    ensures Coherent(SenseStep(s, o), mac)
    ensures Known(SenseStep(s, o), mac) == Sighted(Known(s, mac), o, mac)
  {
    var d, after := s.mem.devs[mac], SenseStep(s, o);
    SightingOfDev(s.mem, o, mac, s.clock);
    SightedJoins(d.pres, Joined(s.j.rows[mac].pres, FlightSeen(s), mac), o, mac);
    assert s.clock <= after.clock;
    SightedBefore(d.pres, o, mac, s.clock, after.clock);
  }

  lemma SightedBefore(v: Scal, o: Sensing, mac: string, clock: int, after: int)
    requires Before(v, clock) && clock <= after && (TimeOf(o).Some? ==> TimeOf(o).value <= after)
    ensures Before(Sighted(v, o, mac), after)
  {
  }

  lemma {:induction false} DirtyRowsJoined(v: Scal, devs: map<string, Dev>, order: seq<string>, mac: string)
    ensures Joined(v, DirtyRows(devs, order), mac) ==
            if mac in order && mac in devs && devs[mac].dirty then Join(v, devs[mac].pres) else v
  {
    if order != [] {
      var n := |order| - 1;
      DirtyRowsJoined(v, devs, order[..n], mac);
      var rest, last := DirtyRows(devs, order[..n]), order[n];
      assert order == order[..n] + [last];
      if last in devs && devs[last].dirty {
        assert (rest + [SeenUpdate(last, devs[last].pres)])[..|rest|] == rest;
      } else {
        assert DirtyRows(devs, order) == rest;
      }
    }
  }

  lemma DrainCoherent(s: Sys, visits: DrainOrder, mac: string)
    requires Coherent(s, mac) && Enabled(s, Drain(visits))
    ensures Coherent(DrainStep(s, visits), mac)
    ensures Known(DrainStep(s, visits), mac) == Known(s, mac)
  {
    DirtyRowsJoined(s.j.rows[mac].pres, s.mem.devs, visits.devs, mac);
    DirtyRowsMembers(s.mem.devs, visits.devs);
    assert FlightSeen(DrainStep(s, visits)) == DirtyRows(s.mem.devs, visits.devs);
  }

  /** What a commit does to the device, and that it touches nothing else of it. */
  lemma CommitRow(s: Sys, mac: string)
    requires mac in s.j.rows && Keyed(s) && s.flight.Some?
    ensures var t := CommitStep(s);
            && mac in t.j.rows && t.j.rows[mac].pres == Joined(s.j.rows[mac].pres, FlightSeen(s), mac)
            && t.mem == s.mem && t.loads == s.loads && t.clock == s.clock && t.j.legacy == s.j.legacy && t.flight.None?
  {
    KeyedCommit(s);
    ApplyAt(s.j, s.flight.value);
  }

  lemma CommittedCoherent(s: Sys, t: Sys, mac: string)
    requires Coherent(s, mac)
    requires mac in t.j.rows && t.j.rows[mac].pres == Joined(s.j.rows[mac].pres, FlightSeen(s), mac)
    requires t.mem == s.mem && t.loads == s.loads && t.clock == s.clock && t.j.legacy == s.j.legacy && t.flight.None?
    ensures Coherent(t, mac) && Known(t, mac) == Known(s, mac)
  {
    var row := s.j.rows[mac].pres;
    JoinedIsLeast(row, FlightSeen(s), mac, t.j.rows[mac].pres);
    JoinedIsLeast(row, FlightSeen(s), mac, Scal(true, s.clock, s.clock));
  }

  lemma CommitCoherent(s: Sys, mac: string)
    requires Coherent(s, mac) && Keyed(s) && s.flight.Some?
    ensures Coherent(CommitStep(s), mac)
    ensures Known(CommitStep(s), mac) == Known(s, mac)
  {
    CommitRow(s, mac);
    CommittedCoherent(s, CommitStep(s), mac);
  }

  lemma FailCoherent(s: Sys, mac: string)
    requires Coherent(s, mac) && s.flight.Some?
    ensures Coherent(FailStep(s), mac)
    ensures Known(FailStep(s), mac) == Known(s, mac)
  {
    var row, seen, d := s.j.rows[mac].pres, FlightSeen(s), s.mem.devs[mac];
    JoinedIsLeast(row, seen, mac, Join(d.pres, row));
    JoinedIsLeast(row, seen, mac, Joined(row, seen, mac));
    assert FailStep(s).mem.devs[mac] == if HasSeen(seen, mac) then d.(dirty := true) else d;
    if !HasSeen(seen, mac) {
      JoinedUntouched(row, seen, mac);
    }
  }

  lemma MergeCoherent(s: Sys, k: nat, mac: string)
    requires Coherent(s, mac) && k < |s.loads| && s.loads[k].rows[mac].mac == mac
    ensures Coherent(MergeStep(s, k), mac)
    ensures Known(MergeStep(s, k), mac) == Known(s, mac)
  {
    var row, seen := s.j.rows[mac].pres, FlightSeen(s);
    JoinedIsLeast(row, seen, mac, Joined(row, seen, mac));
    var after := MergeStep(s, k);
    assert after.mem.devs[mac] == LoadDev(s.mem.devs, s.loads[k].rows[mac]);
    forall i | 0 <= i < |after.loads|
      ensures mac in after.loads[i].rows && Le(after.loads[i].rows[mac].pres, row)
    {
      assert after.loads[i] == s.loads[if i < k then i else i + 1];
    }
  }

  lemma ReadCoherent(s: Sys, order: seq<string>, lost: set<string>, mac: string)
    requires Coherent(s, mac)
    ensures Coherent(Next(s, ReadList(order, lost)), mac)
    ensures Known(Next(s, ReadList(order, lost)), mac) == Known(s, mac)
  {
    assert Listed(s.j.rows, lost)[mac].pres == s.j.rows[mac].pres;
  }

  /** Administration never takes a scalar back, and only the backfill adds one. */
  lemma ManageRow(j: Journal, a: Admin, mac: string)
    requires mac in j.rows && !Untracks(Manage(a), mac)
    ensures mac in ManageJournal(j, a).rows
    ensures ManageJournal(j, a).rows[mac].pres ==
            if a.Backfill? && a.mac == mac then Join(j.rows[mac].pres, FoundIn(j.legacy, mac, a.q)) else j.rows[mac].pres
    ensures ManageJournal(j, a).legacy == if a == DropLog then None else j.legacy
  {
  }

  lemma {:induction false} NewestBound(log: seq<LogRow>, mac: string, upOnly: bool, clock: int)
    requires forall i :: 0 <= i < |log| ==> log[i].ts <= clock
    ensures Newest(log, mac, upOnly).Some? ==> Newest(log, mac, upOnly).value <= clock
  {
    if log != [] {
      NewestBound(log[..|log| - 1], mac, upOnly, clock);
    }
  }

  lemma FoundBefore(legacy: Option<seq<LogRow>>, mac: string, q: Lookups, clock: int)
    requires LogBefore(legacy, clock) && 0 <= clock
    ensures Before(FoundIn(legacy, mac, q), clock)
  {
    if legacy.Some? {
      NewestBound(legacy.value, mac, true, clock);
      NewestBound(legacy.value, mac, false, clock);
    }
  }

  lemma ManageCoherent(s: Sys, a: Admin, mac: string)
    requires Coherent(s, mac) && !Untracks(Manage(a), mac)
    ensures Coherent(ManageStep(s, a), mac)
    ensures Known(ManageStep(s, a), mac) == Recorded(Known(s, mac), s.j.legacy, Manage(a), mac)
  {
    ManageRow(s.j, a, mac);
    if a.Backfill? && a.mac == mac {
      var row, seen, w := s.j.rows[mac].pres, FlightSeen(s), FoundIn(s.j.legacy, mac, a.q);
      FoundBefore(s.j.legacy, mac, a.q, s.clock);
      JoinedCommutes(row, w, seen, mac);
    }
  }

  lemma StepCoherent(s: Sys, st: Step, mac: string)
    requires Coherent(s, mac) && Keyed(s) && Enabled(s, st) && TimelyStep(s, st) && !Untracks(st, mac)
    ensures Coherent(Next(s, st), mac)
    ensures Known(Next(s, st), mac) == Recorded(Known(s, mac), s.j.legacy, st, mac)
  {
    match st
    case Sense(o) => SenseCoherent(s, o, mac);
    case Manage(a) => ManageCoherent(s, a, mac);
    case Tick(_) =>
    case Drain(visits) => DrainCoherent(s, visits, mac);
    case CommitFlight => CommitCoherent(s, mac);
    case FailFlight => FailCoherent(s, mac);
    case ReadList(order, lost) => ReadCoherent(s, order, lost, mac);
    case MergeList(k) => MergeCoherent(s, k, mac);
  }

  lemma StepLegacy(s: Sys, st: Step)
    ensures Next(s, st).j.legacy == if st == Manage(DropLog) then None else s.j.legacy
  {
  }

  // ---- whole runs -----------------------------------------------------------

  /** Over any interleaving with any pattern of failed flushes and racing reloads,
      the system knows about a device exactly what a write-through store would
      have recorded, for as long as the device is not untracked. */
  lemma {:induction false} RefinesWriteThrough(s: Sys, steps: seq<Step>, mac: string)
    requires Coherent(s, mac) && Keyed(s)
    requires ValidRun(s, steps) && Timely(s, steps) && KeepsTracked(steps, mac)
    ensures Coherent(Run(s, steps), mac) && Keyed(Run(s, steps))
    ensures Known(Run(s, steps), mac) == WriteThrough(Known(s, mac), s.j.legacy, steps, mac)
    decreases |steps|
  {
    if steps != [] {
      var st, rest := steps[0], steps[1..];
      assert !Untracks(steps[0], mac);
      assert forall i :: 0 <= i < |rest| ==> rest[i] == steps[i + 1];
      StepCoherent(s, st, mac);
      StepLegacy(s, st);
      KeyedStep(s, st);
      RefinesWriteThrough(Next(s, st), rest, mac);
    }
  }

  /** Start-up establishes the invariant for every device in the journal. */
  lemma BootCoherent(j: Journal, order: seq<string>, clock: int, mac: string)
    requires KeyedJournal(j) && mac in j.rows
    requires Before(j.rows[mac].pres, clock) && 0 <= clock && LogBefore(j.legacy, clock)
    ensures Keyed(Boot(j, order, clock)) && Coherent(Boot(j, order, clock), mac)
    ensures Known(Boot(j, order, clock), mac) == j.rows[mac].pres
  {
    KeyedBoot(j, order, clock);
    assert Boot(j, order, clock).mem.devs[mac] == LoadDev(map[], j.rows[mac]);
  }

  /** Tracking a new device while the server runs enters the invariant exactly when no
      older listing is still to be merged without it and nothing older is in flight
      or listed about an earlier life of it. */
  lemma TrackingCoherentIff(s: Sys, d: Device, order: seq<string>, lost: set<string>, mac: string)
    requires MacText.NormMAC(d.mac) == mac != ""
    requires mac !in s.j.rows && mac !in s.mem.devs && Listing(order, s.j.rows.Keys + {mac})
    requires 0 <= s.clock && LogBefore(s.j.legacy, s.clock)
    ensures var s1 := Next(s, Manage(Track(d)));
            var s2 := Next(s1, ReadList(order, lost));
            && Enabled(s, Manage(Track(d))) && Enabled(s1, ReadList(order, lost)) && Enabled(s2, MergeList(|s.loads|))
            && (Coherent(Next(s2, MergeList(|s.loads|)), mac) <==> NothingOlder(s, mac))
  {
    var s1 := Next(s, Manage(Track(d)));
    assert s1.j.rows.Keys == s.j.rows.Keys + {mac} && s1.j.rows[mac].pres == NEVER && s1.j.rows[mac].mac == mac;
    assert FlightSeen(s1) == FlightSeen(s);
    FirstMerge(s1, order, lost, mac);
  }

  ghost predicate NothingOlder(s: Sys, mac: string) {
    && (forall k :: 0 <= k < |s.loads| ==> mac in s.loads[k].rows && Le(s.loads[k].rows[mac].pres, NEVER))
    && FlightBelow(FlightSeen(s), mac, NEVER)
  }

  lemma FirstMerge(s: Sys, order: seq<string>, lost: set<string>, mac: string)
    requires mac in s.j.rows && s.j.rows[mac].pres == NEVER && s.j.rows[mac].mac == mac && mac !in s.mem.devs
    requires 0 <= s.clock && LogBefore(s.j.legacy, s.clock)
    ensures Coherent(Next(Next(s, ReadList(order, lost)), MergeList(|s.loads|)), mac) <==> NothingOlder(s, mac)
  {
    var s2 := Next(s, ReadList(order, lost));
    var t := Next(s2, MergeList(|s.loads|));
    var rows := Listed(s.j.rows, lost);
    assert s2.loads[|s.loads|] == Snapshot(order, rows);
    assert t.mem.devs[mac] == LoadDev(s.mem.devs, rows[mac]) && t.loads == s.loads;
    JoinedIsLeast(NEVER, FlightSeen(s), mac, Joined(NEVER, FlightSeen(s), mac));
  }
}
