/** What the presence of a device rests on: every scalar, every logged row and every
    live result is traced to the answers that were folded in, said in terms of the
    answers themselves. */
module Evidence {
  import opened Prelude
  import opened Presence
  import opened Types
  import opened StateSpec
  import opened JournalSpec
  import opened Engine
  import opened WriteBehind
  import opened LegacyLog
  import EventLog

  predicate IcmpAnswered(part: LivePart) {
    part.icmp.Some? && part.icmp.value.st == Up
  }

  predicate SomePortOpen(part: LivePart) {
    exists i :: 0 <= i < |part.probes| && part.probes[i].st == Up
  }

  predicate Answered(part: LivePart) {
    IcmpAnswered(part) || SomePortOpen(part)
  }

  // ---- one result -----------------------------------------------------------

  /** ICMP takes precedence over an open port, whatever else answered. */
  lemma SignalMeaning(part: LivePart)
    ensures SignalOf(part) == Icmp <==> IcmpAnswered(part)
    ensures SignalOf(part) == Tcp <==> !IcmpAnswered(part) && SomePortOpen(part)
    ensures SignalOf(part) == NoSignal <==> !Answered(part)
  {
  }

  /** What one result changes of its device, and that it changes nothing else. */
  lemma ResultMeaning(d: Dev, part: LivePart, now: int)
    ensures var after := ProbeDev(d, part, now);
            && (after.pres.icmp <==> d.pres.icmp || IcmpAnswered(part))
            && after.pres.up == (if Answered(part) then now else d.pres.up)
            && after.pres.seen == (if Answered(part) then now else d.pres.seen)
            && (after.dirty <==> d.dirty || Answered(part))
            && after.status == Said(if Answered(part) then Up else Down)
            && after.live == part && after.cfg == d.cfg && after.arp == d.arp && after.arpSeen == d.arpSeen
  {
    SignalMeaning(part);
  }

  /** A row is logged exactly if the answer contradicts the last verdict, and it says
      how the device answered. */
  lemma RowMeaning(mac: string, status: Verdict, part: LivePart, now: int)
    ensures var rows := Transition(mac, status, SignalOf(part), now);
            && |rows| == (if status == Said(if Answered(part) then Down else Up) then 1 else 0)
            && forall e :: e in rows ==> Tells(e, mac, part, now)
  {
    SignalMeaning(part);
  }

  ghost predicate Tells(e: SeenEvent, mac: string, part: LivePart, now: int) {
    && e.mac == mac && e.ts == now
    && (e.st == Up <==> Answered(part))
    && (e.signal == Icmp <==> IcmpAnswered(part))
    && (e.signal == Tcp <==> !IcmpAnswered(part) && SomePortOpen(part))
  }

  // ---- every row has its cause ------------------------------------------------

  /** Some step folded in a result of this device that the row tells. */
  ghost predicate Caused(e: SeenEvent, steps: seq<Step>) {
    exists i :: 0 <= i < |steps| && Causes(steps[i], e)
  }

  ghost predicate Causes(st: Step, e: SeenEvent) {
    st.Sense? && st.o.Probe? && e.mac in st.o.results && Tells(e, e.mac, st.o.results[e.mac], st.o.now)
  }

  lemma {:induction false} CycleCauses(devs: map<string, Dev>, results: map<string, LivePart>, now: int, order: seq<string>)
    ensures forall e :: e in ProbeEvents(devs, results, now, order) ==>
              e.mac in results && Tells(e, e.mac, results[e.mac], now)
  {
    if order != [] {
      var n := |order| - 1;
      var mac := order[n];
      CycleCauses(devs, results, now, order[..n]);
      if mac in devs && mac in results {
        RowMeaning(mac, devs[mac].status, results[mac], now);
      }
    }
  }

  lemma StepCauses(s: Sys, st: Step, e: SeenEvent)
    requires e in Next(s, st).emitted && e !in s.emitted
    ensures Causes(st, e)
  {
    if st.Sense? && st.o.Probe? {
      CycleCauses(s.mem.devs, st.o.results, st.o.now, st.o.order);
    }
  }

  /** Over any run, no row is emitted that does not tell what some folded-in result
      of its device was, at its time. */
  lemma {:induction false} RowsAreCaused(s: Sys, steps: seq<Step>, e: SeenEvent)
    requires e in Run(s, steps).emitted && e !in s.emitted
    ensures Caused(e, steps)
    decreases |steps|
  {
    var next := Next(s, steps[0]);
    if e in next.emitted {
      StepCauses(s, steps[0], e);
    } else {
      RowsAreCaused(next, steps[1..], e);
      var i :| 0 <= i < |steps| - 1 && Causes(steps[1..][i], e);
      assert Causes(steps[i + 1], e);
    }
  }

  // ---- what is known, and from what -------------------------------------------

  /** The step is evidence that the device answers ICMP: an answer that is folded in,
      or an ICMP row of the old log that a backfill step reads. */
  ghost predicate ShowsIcmp(s: Sys, st: Step, mac: string) {
    || (st.Sense? && st.o.Probe? && mac in st.o.results && IcmpAnswered(st.o.results[mac]))
    || (st.Manage? && st.a.Backfill? && st.a.mac == mac && st.a.q.icmp && s.j.legacy.Some?
        && exists i :: 0 <= i < |s.j.legacy.value| && s.j.legacy.value[i].mac == mac && s.j.legacy.value[i].signal == LogIcmp)
  }

  /** All times at which the step shows the device up are at most t. */
  ghost predicate UpUntil(s: Sys, st: Step, mac: string, t: int) {
    && (st.Sense? && st.o.Probe? && mac in st.o.results && Answered(st.o.results[mac]) ==> st.o.now <= t)
    && (st.Manage? && st.a.Backfill? && st.a.mac == mac && st.a.q.up && s.j.legacy.Some? ==>
          RowsUntil(s.j.legacy.value, mac, true, t))
  }

  /** All times at which the step sights the device are at most t. */
  ghost predicate SeenUntil(s: Sys, st: Step, mac: string, t: int) {
    && (st.Sense? && st.o.Neigh? && mac in st.o.byMac ==> st.o.now <= t)
    && (st.Sense? && st.o.Probe? && mac in st.o.results && Answered(st.o.results[mac]) ==> st.o.now <= t)
    && (st.Manage? && st.a.Backfill? && st.a.mac == mac && st.a.q.any && s.j.legacy.Some? ==>
          RowsUntil(s.j.legacy.value, mac, false, t))
  }

  ghost predicate SomeIcmp(s: Sys, steps: seq<Step>, mac: string)
    decreases |steps|
  {
    steps != [] && (ShowsIcmp(s, steps[0], mac) || SomeIcmp(Next(s, steps[0]), steps[1..], mac))
  }

  ghost predicate AllUpUntil(s: Sys, steps: seq<Step>, mac: string, t: int)
    decreases |steps|
  {
    steps != [] ==> UpUntil(s, steps[0], mac, t) && AllUpUntil(Next(s, steps[0]), steps[1..], mac, t)
  }

  ghost predicate AllSeenUntil(s: Sys, steps: seq<Step>, mac: string, t: int)
    decreases |steps|
  {
    steps != [] ==> SeenUntil(s, steps[0], mac, t) && AllSeenUntil(Next(s, steps[0]), steps[1..], mac, t)
  }

  lemma RecordedMeaning(s: Sys, v: Scal, st: Step, mac: string, t: nat)
    ensures var after := Recorded(v, s.j.legacy, st, mac);
            && (after.icmp <==> v.icmp || ShowsIcmp(s, st, mac))
            && (after.up <= t <==> v.up <= t && UpUntil(s, st, mac, t))
            && (after.seen <= t <==> v.seen <= t && SeenUntil(s, st, mac, t))
  {
    match st
    case Sense(o) =>
      if o.Probe? && mac in o.results {
        SignalMeaning(o.results[mac]);
      }
    case Manage(a) =>
      if a.Backfill? && a.mac == mac && s.j.legacy.Some? {
        AggregateMeaning(s.j.legacy.value, mac, t);
      }
    case _ =>
  }

  /** Over any interleaving, failures and reloads included: a device is known to answer
      ICMP exactly if it was, or some result or log row that was folded in says so; and
      its up and sighting times are the latest of what they were and of what was
      folded in, neither later nor earlier. */
  lemma {:induction false} KnownIsTheEvidence(s: Sys, steps: seq<Step>, mac: string, t: nat)
    requires Coherent(s, mac) && Keyed(s)
    requires ValidRun(s, steps) && Timely(s, steps) && KeepsTracked(steps, mac)
    ensures Coherent(Run(s, steps), mac)
    ensures var k, k' := Known(s, mac), Known(Run(s, steps), mac);
            && (k'.icmp <==> k.icmp || SomeIcmp(s, steps, mac))
            && (k'.up <= t <==> k.up <= t && AllUpUntil(s, steps, mac, t))
            && (k'.seen <= t <==> k.seen <= t && AllSeenUntil(s, steps, mac, t))
    decreases |steps|
  {
    if steps != [] {
      assert !Untracks(steps[0], mac);
      assert forall i :: 0 <= i < |steps| - 1 ==> steps[1..][i] == steps[i + 1];
      StepCoherent(s, steps[0], mac);
      KeyedStep(s, steps[0]);
      RecordedMeaning(s, Known(s, mac), steps[0], mac, t);
      KnownIsTheEvidence(Next(s, steps[0]), steps[1..], mac, t);
    }
  }

  // ---- what is shown is the latest ----------------------------------------------

  /** What the kernel last said about a device. */
  datatype L2 = L2(state: Arp, age: int)

  function L2After(last: L2, st: Step, mac: string): L2 {
    if !st.Sense? || !st.o.Neigh? then last
    else if mac in st.o.byMac then L2(st.o.byMac[mac].state, st.o.byMac[mac].seenSec)
    else L2(ArpDown, -1)
  }

  function LiveAfter(s: Sys, last: LivePart, st: Step, mac: string): LivePart {
    if st.Sense? && st.o.Probe? && mac in st.o.results then st.o.results[mac]
    else if st == Tick(false) && s.probed then LivePart(None, [])
    else last
  }

  function LastL2(last: L2, steps: seq<Step>, mac: string): L2
    decreases |steps|
  {
    if steps == [] then last else LastL2(L2After(last, steps[0], mac), steps[1..], mac)
  }

  function LastLive(s: Sys, last: LivePart, steps: seq<Step>, mac: string): LivePart
    decreases |steps|
  {
    if steps == [] then last
    else LastLive(Next(s, steps[0]), LiveAfter(s, last, steps[0], mac), steps[1..], mac)
  }

  function L2Of(d: Dev): L2 {
    L2(d.arp, d.arpSeen)
  }

  lemma SenseShows(s: Sys, o: Sensing, mac: string)
    requires mac in s.mem.devs
    ensures var d, d' := s.mem.devs[mac], SenseMem(s.mem, o).devs;
            mac in d' && L2Of(d'[mac]) == L2After(L2Of(d), Sense(o), mac) && d'[mac].live == LiveAfter(s, d.live, Sense(o), mac)
  {
    var d := s.mem.devs[mac];
    match o
    case Neigh(byMac, now) =>
      assert SenseMem(s.mem, o).devs[mac] == NeighDev(d, byMac, mac, now);
    case Probe(results, now, _) =>
      assert SenseMem(s.mem, o).devs[mac] == if mac in results then ProbeDev(d, results[mac], now) else d;
    case _ =>
  }

  lemma StepShows(s: Sys, st: Step, mac: string)
    requires mac in s.mem.devs && Enabled(s, st)
    requires st.MergeList? ==> mac in s.loads[st.k].rows && s.loads[st.k].rows[mac].mac == mac
    ensures var d, d' := s.mem.devs[mac], Next(s, st).mem.devs;
            mac in d' && L2Of(d'[mac]) == L2After(L2Of(d), st, mac) && d'[mac].live == LiveAfter(s, d.live, st, mac)
  {
    match st
    case Sense(o) => SenseShows(s, o, mac);
    case FailFlight => assert FailStep(s).mem.devs[mac].(dirty := true) == s.mem.devs[mac].(dirty := true);
    case MergeList(k) =>
      assert MergeStep(s, k).mem.devs[mac] == LoadDev(s.mem.devs, s.loads[k].rows[mac]);
    case _ =>
  }

  /** Over any run: the neighbour view of a device is what the last snapshot said of
      it, down and without an age if it was not there; its live results are those of
      the last cycle that answered for it, none after a blanking. */
  lemma {:induction false} ShownIsTheLatest(s: Sys, steps: seq<Step>, mac: string)
    requires Tracked(s, mac) && Keyed(s) && ValidRun(s, steps) && KeepsTracked(steps, mac)
    ensures var d, d' := s.mem.devs[mac], Run(s, steps).mem.devs;
            mac in d' && L2Of(d'[mac]) == LastL2(L2Of(d), steps, mac) && d'[mac].live == LastLive(s, d.live, steps, mac)
    decreases |steps|
  {
    if steps != [] {
      var next := Next(s, steps[0]);
      EventLog.FirstStep(s, steps, mac);
      assert steps[0].MergeList? ==> KeyedRows(s.loads[steps[0].k].rows);
      StepShows(s, steps[0], mac);
      ShownIsTheLatest(next, steps[1..], mac);
    }
  }

  /** From the start of a process nothing is shown until something is seen. */
  lemma ShownFromStart(j: Journal, order: seq<string>, clock: int, steps: seq<Step>, mac: string)
    requires KeyedJournal(j) && mac in j.rows
    requires ValidRun(Boot(j, order, clock), steps) && KeepsTracked(steps, mac)
    ensures var devs := Run(Boot(j, order, clock), steps).mem.devs;
            && mac in devs && L2Of(devs[mac]) == LastL2(L2(ArpDown, -1), steps, mac)
            && devs[mac].live == LastLive(Boot(j, order, clock), LivePart(None, []), steps, mac)
  {
    EventLog.TrackedBoot(j, order, clock, mac);
    assert Boot(j, order, clock).mem.devs[mac] == LoadDev(map[], j.rows[mac]);
    ShownIsTheLatest(Boot(j, order, clock), steps, mac);
  }
}
