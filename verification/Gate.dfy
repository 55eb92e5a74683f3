/** The activity gate: while it is closed no device shows a liveness that nobody
    is checking, and what is shown always agrees with the last verdict. */
module Gate {
  import opened Prelude
  import opened Types
  import opened StateSpec
  import opened JournalSpec
  import opened Engine
  import opened Devices

  predicate Blank(d: Dev) {
    d.live == NO_LIVE && d.status == NoVerdict
  }

  /** The status is the verdict on the results that are held. */
  predicate Faithful(d: Dev) {
    match d.status
    case NoVerdict => d.live == NO_LIVE
    case Said(st) => st == StOf(SignalOf(d.live))
  }

  ghost predicate GateInv(s: Sys) {
    && (forall mac :: mac in s.mem.devs ==> Faithful(s.mem.devs[mac]))
    && (!s.probed ==> forall mac :: mac in s.mem.devs ==> Blank(s.mem.devs[mac]))
  }

  lemma SenseGate(s: Sys, o: Sensing)
    requires GateInv(s) && SensingOk(s, o)
    ensures GateInv(SenseStep(s, o))
  {
    var devs, after := s.mem.devs, SenseMem(s.mem, o).devs;
    match o
    case Neigh(byMac, now) =>
      assert forall mac :: mac in after ==> after[mac] == NeighDev(devs[mac], byMac, mac, now);
    case Probe(results, now, _) =>
      ProbeGate(devs, results, now);
      assert after == ProbeDevs(devs, results, now);
    case _ =>
      assert after == devs;
  }

  lemma ProbeGate(devs: map<string, Dev>, results: map<string, LivePart>, now: int)
    requires forall mac :: mac in devs ==> Faithful(devs[mac])
    ensures forall mac :: mac in ProbeDevs(devs, results, now) ==> Faithful(ProbeDevs(devs, results, now)[mac])
  {
    var after := ProbeDevs(devs, results, now);
    assert forall mac :: mac in after ==>
      after[mac] == if mac in results then ProbeDev(devs[mac], results[mac], now) else devs[mac];
  }

  lemma MergeGate(s: Sys, k: nat)
    requires GateInv(s) && k < |s.loads|
    ensures GateInv(MergeStep(s, k))
  {
    var after, rows := MergeStep(s, k).mem.devs, s.loads[k].rows;
    assert forall mac :: mac in after ==> after[mac] == LoadDev(s.mem.devs, rows[mac]);
  }

  lemma GateStep(s: Sys, st: Step)
    requires GateInv(s) && Enabled(s, st)
    ensures GateInv(Next(s, st))
  {
    match st
    case Sense(o) => SenseGate(s, o);
    case MergeList(k) => MergeGate(s, k);
    case _ =>
  }

  lemma {:induction false} GateRun(s: Sys, steps: seq<Step>)
    requires GateInv(s) && ValidRun(s, steps)
    ensures GateInv(Run(s, steps))
    decreases |steps|
  {
    if steps != [] {
      GateStep(s, steps[0]);
      GateRun(Next(s, steps[0]), steps[1..]);
    }
  }

  lemma GateBoot(j: Journal, order: seq<string>, clock: int)
    ensures GateInv(Boot(j, order, clock))
  {
  }

  /** After any tick that finds the gate closed, whatever happened since the process
      started and whatever happens until a tick finds the gate open: no device
      reports liveness, and the next verdict on it logs nothing. */
  lemma ClosedGateShowsNothing(j: Journal, order: seq<string>, clock: int, before: seq<Step>, after: seq<Step>, mac: string)
    requires ValidRun(Boot(j, order, clock), before + ([Tick(false)] + after))
    requires forall i :: 0 <= i < |after| ==> after[i] != Tick(true)
    ensures var t := Run(Boot(j, order, clock), before + ([Tick(false)] + after));
            mac in t.mem.devs ==>
              && !LiveUp(t.mem.devs[mac].live)
              && forall sig, now :: Transition(mac, t.mem.devs[mac].status, sig, now) == []
  {
    var s := Boot(j, order, clock);
    GateBoot(j, order, clock);
    RunAppend(s, before, [Tick(false)] + after);
    GateRun(s, before);
    ClosedGate(Run(s, before), after, mac);
  }

  lemma ClosedGate(s: Sys, after: seq<Step>, mac: string)
    requires GateInv(s) && ValidRun(s, [Tick(false)] + after)
    requires forall i :: 0 <= i < |after| ==> after[i] != Tick(true)
    ensures var t := Run(s, [Tick(false)] + after);
            mac in t.mem.devs ==>
              && !LiveUp(t.mem.devs[mac].live)
              && forall sig, now :: Transition(mac, t.mem.devs[mac].status, sig, now) == []
  {
    RunCons(s, Tick(false), after);
    GateRun(s, [Tick(false)] + after);
    StaysClosed(TickStep(s, false), after);
    var t := Run(s, [Tick(false)] + after);
    if mac in t.mem.devs {
      BlankShowsNothing(t, mac);
    }
  }

  lemma BlankShowsNothing(s: Sys, mac: string)
    requires GateInv(s) && !s.probed && mac in s.mem.devs
    ensures !LiveUp(s.mem.devs[mac].live)
    ensures forall sig, now :: Transition(mac, s.mem.devs[mac].status, sig, now) == []
  {
  }

  lemma {:induction false} StaysClosed(s: Sys, steps: seq<Step>)
    requires !s.probed && forall i :: 0 <= i < |steps| ==> steps[i] != Tick(true)
    ensures !Run(s, steps).probed
    decreases |steps|
  {
    if steps != [] {
      assert steps[0] != Tick(true);
      assert forall i :: 0 <= i < |steps| - 1 ==> steps[1..][i] == steps[i + 1];
      StaysClosed(Next(s, steps[0]), steps[1..]);
    }
  }

  /** In every state that a process reaches the dashboard says "now" exactly for the
      devices whose last verdict is up. */
  lemma NowIffLastVerdictUp(j: Journal, order: seq<string>, clock: int, steps: seq<Step>, mac: string, now: int)
    requires ValidRun(Boot(j, order, clock), steps)
    ensures var devs := Run(Boot(j, order, clock), steps).mem.devs;
            mac in devs ==> (SeenState(devs[mac], now).seen == Now <==> devs[mac].status == Said(Up))
  {
    GateBoot(j, order, clock);
    GateRun(Boot(j, order, clock), steps);
    var devs := Run(Boot(j, order, clock), steps).mem.devs;
    if mac in devs {
      SignalIsLiveness(devs[mac].live);
    }
  }
}
