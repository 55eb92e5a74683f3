/** What survives: the journal never goes backwards, a kill loses only what was
    folded in after the last committed drain, and a clean shutdown loses nothing.
    Also, exactly when the three hazards of the code bite. */
module Durability {
  import opened Prelude
  import opened Presence
  import opened Types
  import opened StateSpec
  import opened JournalSpec
  import opened Engine
  import opened WriteBehind
  import MacText

  // ---- the journal is monotonic, whatever happens ---------------------------

  lemma RowStepForward(s: Sys, st: Step, mac: string)
    requires mac in s.j.rows && !Untracks(st, mac)
    ensures mac in Next(s, st).j.rows
    ensures Le(s.j.rows[mac].pres, Next(s, st).j.rows[mac].pres)
  {
    match st
    case Manage(a) => ManageRow(s.j, a, mac);
    case CommitFlight =>
      if s.flight.Some? {
        var b, row := NormBatch(s.flight.value), s.j.rows[mac].pres;
        ApplyAt(s.j, b);
        JoinedIsLeast(row, b.seen, mac, Joined(row, b.seen, mac));
      }
    case _ =>
  }

  /** No clock, no invariant: even stale batches and a clock that jumps back
      cannot move a journal scalar backwards. */
  lemma {:induction false} JournalMonotonic(s: Sys, steps: seq<Step>, mac: string)
    requires mac in s.j.rows && KeepsTracked(steps, mac)
    ensures mac in Run(s, steps).j.rows
    ensures Le(s.j.rows[mac].pres, Run(s, steps).j.rows[mac].pres)
    decreases |steps|
  {
    if steps != [] {
      assert !Untracks(steps[0], mac);
      assert forall i :: 0 <= i < |steps| - 1 ==> steps[1..][i] == steps[i + 1];
      RowStepForward(s, steps[0], mac);
      JournalMonotonic(Next(s, steps[0]), steps[1..], mac);
    }
  }

  // ---- bounded loss ---------------------------------------------------------

  /** What the journal will hold for the device once the batch in flight commits. */
  function Promised(s: Sys, mac: string): Scal
    requires mac in s.j.rows
  {
    Joined(s.j.rows[mac].pres, FlightSeen(s), mac)
  }

  predicate Settles(st: Step) {
    st.CommitFlight? || st.FailFlight?
  }

  lemma DrainPromises(s: Sys, visits: DrainOrder, mac: string)
    requires Coherent(s, mac) && Enabled(s, Drain(visits))
    ensures mac in DrainStep(s, visits).j.rows
    ensures Le(Known(s, mac), Promised(DrainStep(s, visits), mac))
  {
    DrainCoherent(s, visits, mac);
  }

  lemma PromiseKept(s: Sys, st: Step, mac: string)
    requires mac in s.j.rows && Enabled(s, st) && !Untracks(st, mac) && (s.flight.Some? ==> !Settles(st))
    ensures mac in Next(s, st).j.rows && Le(Promised(s, mac), Promised(Next(s, st), mac))
    ensures s.flight.Some? ==> Next(s, st).flight == s.flight
  {
    var row, seen, after := s.j.rows[mac].pres, FlightSeen(s), Next(s, st);
    RowStepForward(s, st, mac);
    var c := Promised(after, mac);
    JoinedIsLeast(after.j.rows[mac].pres, FlightSeen(after), mac, c);
    JoinedIsLeast(row, seen, mac, c);
  }

  /** A committed batch makes good on the promise. */
  lemma CommitKeepsPromise(s: Sys, mac: string)
    requires mac in s.j.rows && Keyed(s) && s.flight.Some?
    ensures mac in CommitStep(s).j.rows && CommitStep(s).j.rows[mac].pres == Promised(s, mac)
  {
    KeyedCommit(s);
    ApplyAt(s.j, s.flight.value);
  }

  lemma {:induction false} PromiseKeptRun(s: Sys, steps: seq<Step>, mac: string)
    requires mac in s.j.rows && s.flight.Some? && ValidRun(s, steps) && KeepsTracked(steps, mac)
    requires forall i :: 0 <= i < |steps| ==> !Settles(steps[i])
    ensures mac in Run(s, steps).j.rows && Le(Promised(s, mac), Promised(Run(s, steps), mac))
    ensures Run(s, steps).flight == s.flight
    decreases |steps|
  {
    if steps != [] {
      assert !Untracks(steps[0], mac) && !Settles(steps[0]);
      assert forall i :: 0 <= i < |steps| - 1 ==> steps[1..][i] == steps[i + 1];
      PromiseKept(s, steps[0], mac);
      PromiseKeptRun(Next(s, steps[0]), steps[1..], mac);
    }
  }

  /** A drain whose batch is later committed: what was promised is kept. */
  lemma CommittedDrainKeeps(s: Sys, visits: DrainOrder, between: seq<Step>, mac: string)
    requires mac in s.j.rows && Keyed(s)
    requires ValidRun(s, [Drain(visits)] + between + [CommitFlight]) && KeepsTracked(between, mac)
    requires forall i :: 0 <= i < |between| ==> !Settles(between[i])
    ensures var t := Run(s, [Drain(visits)] + between + [CommitFlight]);
            mac in t.j.rows && Le(Promised(DrainStep(s, visits), mac), t.j.rows[mac].pres)
  {
    var s1 := DrainStep(s, visits);
    RunAppend(s, [Drain(visits)], between);
    RunAppend(s, [Drain(visits)] + between, [CommitFlight]);
    assert Run(s1, []) == s1;
    var s2 := Run(s1, between);
    KeyedRun(s, [Drain(visits)] + between);
    if s1.flight.Some? {
      PromiseKeptRun(s1, between, mac);
      CommitKeepsPromise(s2, mac);
    } else {
      JournalMonotonic(s1, between, mac);
      CommitKeepsPromise(s2, mac);
      JoinedIsLeast(s2.j.rows[mac].pres, FlightSeen(s2), mac, Promised(s2, mac));
    }
    assert Run(s2, [CommitFlight]) == CommitStep(s2);
  }

  /** So it covers everything that was known when it drained. */
  lemma CommittedDrainCovers(s: Sys, visits: DrainOrder, between: seq<Step>, mac: string)
    requires Coherent(s, mac) && Keyed(s)
    requires ValidRun(s, [Drain(visits)] + between + [CommitFlight]) && KeepsTracked(between, mac)
    requires forall i :: 0 <= i < |between| ==> !Settles(between[i])
    ensures var t := Run(s, [Drain(visits)] + between + [CommitFlight]);
            mac in t.j.rows && Le(Known(s, mac), t.j.rows[mac].pres)
  {
    DrainFirst(s, visits, between);
    DrainPromises(s, visits, mac);
    CommittedDrainKeeps(s, visits, between, mac);
  }

  /** If the process is killed at the end of this run, the journal still has every
      observation folded in before the last drain whose batch was committed. */
  lemma BoundedLoss(s: Sys, before: seq<Step>, visits: DrainOrder, between: seq<Step>, after: seq<Step>, mac: string)
    requires Coherent(s, mac) && Keyed(s)
    requires var steps := before + ([Drain(visits)] + between + [CommitFlight]) + after;
             ValidRun(s, steps) && Timely(s, steps)
    requires KeepsTracked(before, mac) && KeepsTracked(between, mac) && KeepsTracked(after, mac)
    requires forall i :: 0 <= i < |between| ==> !Settles(between[i])
    ensures var killed := Run(s, before + ([Drain(visits)] + between + [CommitFlight]) + after);
            mac in killed.j.rows && Le(WriteThrough(Known(s, mac), s.j.legacy, before, mac), killed.j.rows[mac].pres)
  {
    var middle := [Drain(visits)] + between + [CommitFlight];
    RunAppend(s, before, middle);
    RunAppend(s, before + middle, after);
    TimelyAppend(s, before + middle, after);
    TimelyAppend(s, before, middle);
    RefinesWriteThrough(s, before, mac);
    CommittedDrainCovers(Run(s, before), visits, between, mac);
    JournalMonotonic(Run(s, before + middle), after, mac);
  }

  // ---- clean shutdown -------------------------------------------------------

  /** The flush that Run ends with, when the journal accepts it. */
  function FinalFlush(s: Sys, visits: DrainOrder): Sys {
    CommitStep(DrainStep(s, visits))
  }

  /** All loops have stopped and the last flush succeeds: the next process starts
      with the join of the old journal and the old memory. */
  lemma CleanShutdown(s: Sys, visits: DrainOrder, order: seq<string>, clock: int, mac: string)
    requires Coherent(s, mac) && Keyed(s) && Enabled(s, Drain(visits))
    ensures var boot := Boot(FinalFlush(s, visits).j, order, clock);
            && mac in boot.mem.devs
            && boot.mem.devs[mac].pres == Join(s.j.rows[mac].pres, s.mem.devs[mac].pres)
  {
    var t := DrainStep(s, visits);
    KeyedStep(s, Drain(visits));
    DrainPromisesAll(s, visits, mac);
    FinalRow(t, mac);
    BootSeeds(FinalFlush(s, visits).j, order, clock, mac);
  }

  lemma DrainPromisesAll(s: Sys, visits: DrainOrder, mac: string)
    requires Coherent(s, mac) && Enabled(s, Drain(visits))
    ensures mac in DrainStep(s, visits).j.rows
    ensures Promised(DrainStep(s, visits), mac) == Join(s.j.rows[mac].pres, s.mem.devs[mac].pres)
  {
    DirtyRowsJoined(s.j.rows[mac].pres, s.mem.devs, visits.devs, mac);
    assert FlightSeen(DrainStep(s, visits)) == DirtyRows(s.mem.devs, visits.devs);
  }

  lemma FinalRow(t: Sys, mac: string)
    requires mac in t.j.rows && Keyed(t)
    ensures mac in CommitStep(t).j.rows && CommitStep(t).j.rows[mac].pres == Promised(t, mac)
  {
    if t.flight.Some? {
      CommitKeepsPromise(t, mac);
    }
  }

  lemma BootSeeds(j: Journal, order: seq<string>, clock: int, mac: string)
    requires mac in j.rows
    ensures mac in Boot(j, order, clock).mem.devs
    ensures Boot(j, order, clock).mem.devs[mac].pres == j.rows[mac].pres
  {
    assert Boot(j, order, clock).mem.devs[mac] == LoadDev(map[], j.rows[mac]);
  }

  // ---- hazards, and exactly when they bite ----------------------------------

  /** Memory is ahead of what the journal holds or is about to hold, and no flush will
      write it: the device is not marked. */
  ghost predicate Stranded(s: Sys, mac: string)
    requires mac in s.j.rows && mac in s.mem.devs
  {
    !s.mem.devs[mac].dirty && !Le(s.mem.devs[mac].pres, Promised(s, mac))
  }

  /** Untracking a device and tracking it again with no reload in between strands
      its presence exactly when memory owes none and holds more than the batch in
      flight will bring back. */
  lemma ReAddStrandsIff(s: Sys, d: Device, mac: string)
    requires mac in s.j.rows && mac in s.mem.devs
    requires MacText.NormMAC(d.mac) == mac != ""
    ensures var t := Next(Next(s, Manage(Delete(mac, 3))), Manage(Track(d)));
            && mac in t.j.rows && mac in t.mem.devs
            && (Stranded(t, mac) <==> !s.mem.devs[mac].dirty && !Le(s.mem.devs[mac].pres, Joined(NEVER, FlightSeen(s), mac)))
  {
    MacText.NormIdempotent(d.mac);
  }

  /** A later sighting, or an answer to a probe. */
  predicate Freshens(o: Sensing, d: Dev, mac: string) {
    match o
    case Neigh(byMac, now) => mac in byMac && now > d.pres.seen
    case Probe(results, _, _) => mac in results && SignalOf(results[mac]) != NoSignal
    case _ => false
  }

  /** What ends a stranding: a fresh observation, a failed flush that had the device
      in its batch, or a backfill that brings the row level. */
  predicate Heals(s: Sys, st: Step, mac: string)
    requires mac in s.j.rows && mac in s.mem.devs
  {
    match st
    case Sense(o) => Freshens(o, s.mem.devs[mac], mac)
    case FailFlight => HasSeen(FlightSeen(s), mac)
    case Manage(a) =>
      a.Backfill? && a.mac == mac && Le(s.mem.devs[mac].pres, Join(Promised(s, mac), FoundIn(s.j.legacy, mac, a.q)))
    case _ => false
  }

  /** The step leaves the device in the journal and in memory. */
  predicate Retains(s: Sys, st: Step, mac: string) {
    !Untracks(st, mac) && (st.MergeList? && st.k < |s.loads| ==> mac in s.loads[st.k].rows)
  }

  lemma SenseStrandedIff(s: Sys, o: Sensing, mac: string)
    requires mac in s.j.rows && mac in s.mem.devs && Stranded(s, mac)
    ensures mac in SenseStep(s, o).mem.devs
    ensures Stranded(SenseStep(s, o), mac) <==> !Freshens(o, s.mem.devs[mac], mac)
  {
    var d, m := s.mem.devs[mac], SenseMem(s.mem, o);
    match o
    case Neigh(byMac, now) =>
      assert m.devs[mac] == NeighDev(d, byMac, mac, now);
    case Probe(results, now, _) =>
      assert m.devs[mac] == if mac in results then ProbeDev(d, results[mac], now) else d;
    case _ =>
      assert m.devs == s.mem.devs;
  }

  lemma DrainStranded(s: Sys, visits: DrainOrder, mac: string)
    requires mac in s.j.rows && mac in s.mem.devs && Stranded(s, mac) && s.flight.None?
    ensures mac in DrainStep(s, visits).mem.devs && Stranded(DrainStep(s, visits), mac)
  {
    DirtyRowsJoined(s.j.rows[mac].pres, s.mem.devs, visits.devs, mac);
    assert FlightSeen(DrainStep(s, visits)) == DirtyRows(s.mem.devs, visits.devs);
  }

  lemma CommitStranded(s: Sys, mac: string)
    requires mac in s.j.rows && mac in s.mem.devs && Stranded(s, mac) && Keyed(s) && s.flight.Some?
    ensures mac in CommitStep(s).j.rows && Stranded(CommitStep(s), mac)
  {
    CommitKeepsPromise(s, mac);
  }

  lemma FailStrandedIff(s: Sys, mac: string)
    requires mac in s.j.rows && mac in s.mem.devs && Stranded(s, mac) && s.flight.Some?
    ensures mac in FailStep(s).mem.devs
    ensures Stranded(FailStep(s), mac) <==> !HasSeen(FlightSeen(s), mac)
  {
    var d := s.mem.devs[mac];
    assert FailStep(s).mem.devs[mac] == if HasSeen(FlightSeen(s), mac) then d.(dirty := true) else d;
    if !HasSeen(FlightSeen(s), mac) {
      JoinedUntouched(s.j.rows[mac].pres, FlightSeen(s), mac);
    }
  }

  lemma MergeStranded(s: Sys, k: nat, mac: string)
    requires mac in s.j.rows && mac in s.mem.devs && Stranded(s, mac)
    requires k < |s.loads| && mac in s.loads[k].rows && s.loads[k].rows[mac].mac == mac
    ensures mac in MergeStep(s, k).mem.devs && Stranded(MergeStep(s, k), mac)
  {
    assert MergeStep(s, k).mem.devs[mac] == LoadDev(s.mem.devs, s.loads[k].rows[mac]);
  }

  lemma ManageStrandedIff(s: Sys, a: Admin, mac: string)
    requires mac in s.j.rows && mac in s.mem.devs && Stranded(s, mac) && !Untracks(Manage(a), mac)
    ensures mac in ManageStep(s, a).j.rows
    ensures Stranded(ManageStep(s, a), mac) <==> !Heals(s, Manage(a), mac)
  {
    ManageRow(s.j, a, mac);
    if a.Backfill? && a.mac == mac {
      JoinedCommutes(s.j.rows[mac].pres, FoundIn(s.j.legacy, mac, a.q), FlightSeen(s), mac);
    }
  }

  /** One step ends a stranding exactly if it is one that heals. */
  lemma StrandedStepIff(s: Sys, st: Step, mac: string)
    requires mac in s.j.rows && mac in s.mem.devs && Stranded(s, mac)
    requires Enabled(s, st) && Retains(s, st, mac) && (st.CommitFlight? ==> Keyed(s))
    requires st.MergeList? ==> s.loads[st.k].rows[mac].mac == mac
    ensures mac in Next(s, st).j.rows && mac in Next(s, st).mem.devs
    ensures Stranded(Next(s, st), mac) <==> !Heals(s, st, mac)
  {
    match st
    case Sense(o) => SenseStrandedIff(s, o, mac);
    case Manage(a) => ManageStrandedIff(s, a, mac);
    case Tick(gateOpen) => TickStranded(s, gateOpen, mac);
    case Drain(visits) => DrainStranded(s, visits, mac);
    case CommitFlight => CommitStranded(s, mac);
    case FailFlight => FailStrandedIff(s, mac);
    case ReadList(_, _) =>
    case MergeList(k) => MergeStranded(s, k, mac);
  }

  lemma TickStranded(s: Sys, gateOpen: bool, mac: string)
    requires mac in s.j.rows && mac in s.mem.devs && Stranded(s, mac)
    ensures mac in TickStep(s, gateOpen).mem.devs && Stranded(TickStep(s, gateOpen), mac)
  {
    assert FlightSeen(TickStep(s, gateOpen)) == FlightSeen(s);
  }

  /** No step of the run untracks the device or heals it. */
  ghost predicate Unhealed(s: Sys, steps: seq<Step>, mac: string)
    decreases |steps|
  {
    steps != [] ==>
      && Retains(s, steps[0], mac)
      && (mac in s.j.rows && mac in s.mem.devs ==> !Heals(s, steps[0], mac))
      && Unhealed(Next(s, steps[0]), steps[1..], mac)
  }

  /** Over any run, with any number of flushes and reloads, the device stays stranded
      until a step heals it. */
  lemma {:induction false} StaysStranded(s: Sys, steps: seq<Step>, mac: string)
    requires mac in s.j.rows && mac in s.mem.devs && Stranded(s, mac)
    requires Keyed(s) && ValidRun(s, steps) && Unhealed(s, steps, mac)
    ensures mac in Run(s, steps).j.rows && mac in Run(s, steps).mem.devs && Stranded(Run(s, steps), mac)
    decreases |steps|
  {
    if steps != [] {
      assert steps[0].MergeList? ==> KeyedRows(s.loads[steps[0].k].rows);
      StrandedStepIff(s, steps[0], mac);
      KeyedStep(s, steps[0]);
      StaysStranded(Next(s, steps[0]), steps[1..], mac);
    }
  }

  lemma FreshMarks(s: Sys, o: Sensing, mac: string)
    requires mac in s.mem.devs && Freshens(o, s.mem.devs[mac], mac)
    ensures mac in SenseStep(s, o).mem.devs && SenseStep(s, o).mem.devs[mac].dirty
  {
    var d, m := s.mem.devs[mac], SenseMem(s.mem, o);
    match o {
      case Neigh(byMac, now) => assert m.devs[mac] == NeighDev(d, byMac, mac, now);
      case Probe(results, now, _) => assert m.devs[mac] == ProbeDev(d, results[mac], now);
    }
  }

  lemma DrainPromisesDirty(s: Sys, visits: DrainOrder, mac: string)
    requires mac in s.j.rows && mac in s.mem.devs && s.mem.devs[mac].dirty && Enabled(s, Drain(visits))
    ensures mac in DrainStep(s, visits).j.rows && Le(s.mem.devs[mac].pres, Promised(DrainStep(s, visits), mac))
  {
    DirtyRowsJoined(s.j.rows[mac].pres, s.mem.devs, visits.devs, mac);
    assert FlightSeen(DrainStep(s, visits)) == DirtyRows(s.mem.devs, visits.devs);
  }

  /** A marked device: the next batch that commits writes everything that memory
      held of it at the drain, whatever happens meanwhile. */
  lemma MarkedIsWritten(s: Sys, visits: DrainOrder, between: seq<Step>, mac: string)
    requires mac in s.j.rows && mac in s.mem.devs && s.mem.devs[mac].dirty && Keyed(s)
    requires ValidRun(s, [Drain(visits)] + between + [CommitFlight]) && KeepsTracked(between, mac)
    requires forall i :: 0 <= i < |between| ==> !Settles(between[i])
    ensures var t := Run(s, [Drain(visits)] + between + [CommitFlight]);
            mac in t.j.rows && Le(s.mem.devs[mac].pres, t.j.rows[mac].pres)
  {
    DrainFirst(s, visits, between);
    DrainPromisesDirty(s, visits, mac);
    CommittedDrainKeeps(s, visits, between, mac);
  }

  lemma DrainFirst(s: Sys, visits: DrainOrder, between: seq<Step>)
    requires ValidRun(s, [Drain(visits)] + between + [CommitFlight])
    ensures Enabled(s, Drain(visits))
  {
    RunCons(s, Drain(visits), between + [CommitFlight]);
    assert [Drain(visits)] + between + [CommitFlight] == [Drain(visits)] + (between + [CommitFlight]);
  }

  /** So the first fresh observation ends a stranding for good: it marks the device,
      and the next batch that commits writes what memory holds. */
  lemma FreshIsWritten(s: Sys, o: Sensing, visits: DrainOrder, between: seq<Step>, mac: string)
    requires mac in s.j.rows && mac in s.mem.devs && Freshens(o, s.mem.devs[mac], mac) && Keyed(s) && SensingOk(s, o)
    requires ValidRun(SenseStep(s, o), [Drain(visits)] + between + [CommitFlight]) && KeepsTracked(between, mac)
    requires forall i :: 0 <= i < |between| ==> !Settles(between[i])
    ensures var t := SenseStep(s, o);
            var u := Run(t, [Drain(visits)] + between + [CommitFlight]);
            mac in t.mem.devs && mac in u.j.rows && Le(t.mem.devs[mac].pres, u.j.rows[mac].pres)
  {
    FreshMarks(s, o, mac);
    KeyedStep(s, Sense(o));
    MarkedIsWritten(SenseStep(s, o), visits, between, mac);
  }

  /** What the system knows when memory may have dropped the device. */
  function KnownSomewhere(s: Sys, mac: string): Scal
    requires mac in s.j.rows
  {
    if mac in s.mem.devs then Known(s, mac) else Promised(s, mac)
  }

  /** Merging a listing read earlier keeps what is known about a device exactly
      when the listing says nothing of it that is not known (it may stem from before
      the device was deleted), or lacks it while memory has nothing of its own. */
  lemma MergeKeepsIff(s: Sys, k: nat, mac: string)
    requires mac in s.j.rows && mac in s.mem.devs && k < |s.loads|
    requires mac in s.loads[k].rows ==> s.loads[k].rows[mac].mac == mac
    ensures KnownSomewhere(MergeStep(s, k), mac) == Known(s, mac) <==>
            if mac in s.loads[k].rows then Le(s.loads[k].rows[mac].pres, Known(s, mac))
            else Le(s.mem.devs[mac].pres, Promised(s, mac))
  {
    var after := MergeStep(s, k);
    if mac in s.loads[k].rows {
      assert after.mem.devs[mac] == LoadDev(s.mem.devs, s.loads[k].rows[mac]);
    } else {
      assert mac !in after.mem.devs;
    }
  }

  /** applyProbes writes the time it is given: memory moves backwards exactly when
      an up device is stamped with a time older than one it already carries. */
  lemma ProbeKeepsForwardIff(d: Dev, part: LivePart, now: int)
    ensures Le(d.pres, ProbeDev(d, part, now).pres) <==>
            SignalOf(part) == NoSignal || (d.pres.up <= now && d.pres.seen <= now)
  {
  }

  // ---- the hazards happen ---------------------------------------------------

  const LAPTOP: MacText.Octets := [0x02, 0, 0, 0, 0, 0x01]
  const NO_ATTRS := Attrs("", "", "", "", 0)

  lemma PrintedIsCanonical(o: MacText.Octets)
    ensures MacText.Canonical(MacText.PrintMac(o)) && MacText.PrintMac(o) != ""
  {
    MacText.PrintParse(o);
    MacText.NormPrintsTheOctets(MacText.PrintMac(o));
    MacText.JoinEnds(MacText.Parts(o));
  }

  function LaptopRow(mac: string): Device {
    Device(mac, "192.0.2.5", "laptop", NO_ATTRS, [], Scal(true, 100, 100))
  }

  function LaptopJournal(mac: string): Journal {
    Journal(map[mac := LaptopRow(mac)], [], map[], None)
  }

  /** A device last up at 100 is restored from the journal, untracked and tracked
      again: memory still shows it as up, and over no later run does a flush say so
      before a step heals the device. */
  lemma ReAddStrands(later: seq<Step>)
    requires var mac := MacText.PrintMac(LAPTOP);
             var t := Run(Boot(LaptopJournal(mac), [mac], 100), ReAdd(mac));
             ValidRun(t, later) && Unhealed(t, later, mac)
    ensures var mac := MacText.PrintMac(LAPTOP);
            var s := Boot(LaptopJournal(mac), [mac], 100);
            var u := Run(Run(s, ReAdd(mac)), later);
            && ValidRun(s, ReAdd(mac)) && mac in u.j.rows && mac in u.mem.devs && Stranded(u, mac)
  {
    var mac := MacText.PrintMac(LAPTOP);
    PrintedIsCanonical(LAPTOP);
    ReAddStrandsOf(mac);
    StaysStranded(Run(Boot(LaptopJournal(mac), [mac], 100), ReAdd(mac)), later, mac);
  }

  function ReAdd(mac: string): seq<Step> {
    [Manage(Delete(mac, 3)), Manage(Track(LaptopRow(mac)))]
  }

  lemma ReAddStrandsOf(mac: string)
    requires MacText.Canonical(mac) && mac != ""
    ensures var s := Boot(LaptopJournal(mac), [mac], 100);
            var t := Run(s, ReAdd(mac));
            ValidRun(s, ReAdd(mac)) && Keyed(t) && mac in t.j.rows && mac in t.mem.devs && Stranded(t, mac)
  {
    var s := Boot(LaptopJournal(mac), [mac], 100);
    BootCoherent(LaptopJournal(mac), [mac], 100, mac);
    assert s.mem.devs[mac] == LoadDev(map[], LaptopRow(mac));
    ReAddStrandsIff(s, LaptopRow(mac), mac);
    RunTwo(s, Manage(Delete(mac, 3)), Manage(Track(LaptopRow(mac))));
    KeyedRun(s, ReAdd(mac));
  }

  /** A reload reads the empty journal; a laptop is tracked, loaded and sighted;
      then the first reload merges. */
  function StaleReload(mac: string): seq<Step> {
    [ReadList([], {}), Manage(Track(LaptopRow(mac)))] + [ReadList([mac], {}), MergeList(1)] +
    [Sense(Neigh(map[mac := Entry("192.0.2.5", mac, ArpUp, 0)], 200)), MergeList(0)]
  }

  /** The stale reload drops the device from memory although it is tracked, and
      its unflushed sighting with it. */
  lemma StaleReloadForgets()
    ensures var mac := MacText.PrintMac(LAPTOP);
            var s := Boot(Journal(map[], [], map[], None), [], 100);
            && ValidRun(s, StaleReload(mac)) && Timely(s, StaleReload(mac))
            && mac in Run(s, StaleReload(mac)).j.rows && mac !in Run(s, StaleReload(mac)).mem.devs
            && Run(s, StaleReload(mac)).j.rows[mac].pres.seen < 200
  {
    PrintedIsCanonical(LAPTOP);
    StaleReloadForgetsOf(MacText.PrintMac(LAPTOP));
  }

  lemma TimelyTwo(s: Sys, a: Step, b: Step)
    ensures Timely(s, [a, b]) <==> TimelyStep(s, a) && TimelyStep(Next(s, a), b)
  {
    assert [a, b][1..] == [b] && [b][1..] == [];
    assert Timely(Next(s, a), [b]) <==> TimelyStep(Next(s, a), b) && Timely(Next(Next(s, a), b), []);
  }

  lemma StaleReloadForgetsOf(mac: string)
    requires MacText.Canonical(mac) && mac != ""
    ensures var s := Boot(Journal(map[], [], map[], None), [], 100);
            && ValidRun(s, StaleReload(mac)) && Timely(s, StaleReload(mac))
            && mac in Run(s, StaleReload(mac)).j.rows && mac !in Run(s, StaleReload(mac)).mem.devs
            && Run(s, StaleReload(mac)).j.rows[mac].pres.seen < 200
  {
    var s := Boot(Journal(map[], [], map[], None), [], 100);
    var a := [ReadList([], {}), Manage(Track(LaptopRow(mac)))];
    var b := [ReadList([mac], {}), MergeList(1)];
    var c := [Sense(Neigh(map[mac := Entry("192.0.2.5", mac, ArpUp, 0)], 200)), MergeList(0)];
    RunTwo(s, a[0], a[1]);
    TimelyTwo(s, a[0], a[1]);
    var s1 := Run(s, a);
    assert s1.loads == [Snapshot([], map[])] && s1.j.rows.Keys == {mac} && s1.j.rows[mac].pres == NEVER;
    RunTwo(s1, b[0], b[1]);
    TimelyTwo(s1, b[0], b[1]);
    var s2 := Run(s1, b);
    assert s2.loads == [Snapshot([], map[])] && s2.j == s1.j && s2.clock == 100;
    RunTwo(s2, c[0], c[1]);
    TimelyTwo(s2, c[0], c[1]);
    RunAppend(s, a, b);
    RunAppend(s, a + b, c);
    TimelyAppend(s, a, b);
    TimelyAppend(s, a + b, c);
  }
}
