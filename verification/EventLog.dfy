/** The transition history: it reaches the journal exactly once and in order, and
    for each device it is precisely the edge set of the verdict stream. */
module EventLog {
  import opened Prelude
  import opened Types
  import opened StateSpec
  import opened JournalSpec
  import opened Engine
  import opened WriteBehind
  import opened Gate
  import MacText

  // ---- exactly once, in order -----------------------------------------------

  ghost predicate Conserved(s: Sys) {
    s.log + FlightEvents(s) + s.mem.events == s.emitted
  }

  predicate Erases(st: Step) {
    st.Manage? && (st.a.Delete? || st.a.PruneEventRows?)
  }

  lemma Assoc(a: seq<SeenEvent>, b: seq<SeenEvent>, c: seq<SeenEvent>)
    ensures a + b + c == a + (b + c)
  {
  }

  lemma SenseConserves(s: Sys, o: Sensing)
    requires Conserved(s)
    ensures Conserved(SenseStep(s, o))
  {
    Assoc(s.log + FlightEvents(s), s.mem.events, Emits(s.mem, o));
    assert SenseMem(s.mem, o).events == s.mem.events + Emits(s.mem, o);
  }

  lemma DrainConserves(s: Sys, visits: DrainOrder)
    requires Conserved(s) && s.flight.None?
    ensures Conserved(DrainStep(s, visits))
  {
    assert FlightEvents(DrainStep(s, visits)) == s.mem.events;
    Assoc(s.log, [], s.mem.events);
  }

  lemma SettleConserves(s: Sys)
    requires Conserved(s) && s.flight.Some?
    ensures Keyed(s) ==> Conserved(CommitStep(s))
    ensures Conserved(FailStep(s))
  {
    if Keyed(s) {
      KeyedCommit(s);
      assert CommitStep(s).log + [] == s.log + FlightEvents(s);
    }
    Assoc(s.log, FlightEvents(s), s.mem.events);
    assert s.log + [] == s.log;
  }

  lemma StepConserves(s: Sys, st: Step)
    requires Conserved(s) && Enabled(s, st) && (st.CommitFlight? ==> Keyed(s))
    ensures Conserved(Next(s, st))
  {
    match st
    case Sense(o) => SenseConserves(s, o);
    case Drain(visits) => DrainConserves(s, visits);
    case CommitFlight => SettleConserves(s);
    case FailFlight => SettleConserves(s);
    case _ =>
  }

  /** Committed events, then the batch in flight, then the pending ones: that is
      always the emitted sequence, through any pattern of failed flushes. */
  lemma {:induction false} ExactlyOnceInOrder(s: Sys, steps: seq<Step>)
    requires Conserved(s) && Keyed(s) && ValidRun(s, steps)
    ensures Conserved(Run(s, steps)) && Keyed(Run(s, steps))
    decreases |steps|
  {
    if steps != [] {
      StepConserves(s, steps[0]);
      KeyedStep(s, steps[0]);
      ExactlyOnceInOrder(Next(s, steps[0]), steps[1..]);
    }
  }

  /** Until a device is deleted or the table pruned, the stored table is the old
      table followed by what was committed. */
  lemma {:induction false} TableHoldsTheLog(s: Sys, steps: seq<Step>, base: seq<SeenEvent>)
    requires s.j.events == base + s.log
    requires forall i :: 0 <= i < |steps| ==> !Erases(steps[i])
    ensures Run(s, steps).j.events == base + Run(s, steps).log
    decreases |steps|
  {
    if steps != [] {
      assert !Erases(steps[0]);
      assert forall i :: 0 <= i < |steps| - 1 ==> steps[1..][i] == steps[i + 1];
      TableStep(s, steps[0], base);
      TableHoldsTheLog(Next(s, steps[0]), steps[1..], base);
    }
  }

  /** From the start of the process: every emitted event is in exactly one of the
      three places, in the order of emission. */
  lemma ExactlyOnceFromStart(j: Journal, order: seq<string>, clock: int, steps: seq<Step>)
    requires KeyedJournal(j) && ValidRun(Boot(j, order, clock), steps)
    ensures var t := Run(Boot(j, order, clock), steps); t.log + FlightEvents(t) + t.mem.events == t.emitted
  {
    KeyedBoot(j, order, clock);
    ExactlyOnceInOrder(Boot(j, order, clock), steps);
  }

  lemma TableStep(s: Sys, st: Step, base: seq<SeenEvent>)
    requires s.j.events == base + s.log && !Erases(st)
    ensures Next(s, st).j.events == base + Next(s, st).log
  {
    if st.CommitFlight? && s.flight.Some? {
      var b := NormBatch(s.flight.value);
      assert base + s.log + b.events == base + (s.log + b.events);
    }
  }

  // ---- the edges of the verdict stream --------------------------------------

  /** What the probe loop does to one device: a verdict, or the gate's blanking. */
  datatype Beat = Judged(sig: Signal, ts: int) | Blanked

  function Of(events: seq<SeenEvent>, mac: string): seq<SeenEvent> {
    if events == [] then []
    else
      var e := events[|events| - 1];
      Of(events[..|events| - 1], mac) + if e.mac == mac then [e] else []
  }

  /** The rows that a stream of beats should produce: one per change of verdict,
      none for the first verdict after a blank. */
  function Edges(mac: string, status: Verdict, beats: seq<Beat>): seq<SeenEvent>
    decreases |beats|
  {
    if beats == [] then []
    else
      match beats[0]
      case Judged(sig, ts) => Transition(mac, status, sig, ts) + Edges(mac, Said(StOf(sig)), beats[1..])
      case Blanked => Edges(mac, NoVerdict, beats[1..])
  }

  function Status(status: Verdict, beats: seq<Beat>): Verdict
    decreases |beats|
  {
    if beats == [] then status
    else Status(if beats[0].Judged? then Said(StOf(beats[0].sig)) else NoVerdict, beats[1..])
  }

  function BeatOf(s: Sys, st: Step, mac: string): seq<Beat> {
    match st
    case Sense(o) =>
      if o.Probe? && mac in o.results then [Judged(SignalOf(o.results[mac]), o.now)] else []
    case Tick(gateOpen) => if !gateOpen && s.probed then [Blanked] else []
    case _ => []
  }

  function Beats(s: Sys, steps: seq<Step>, mac: string): seq<Beat>
    decreases |steps|
  {
    if steps == [] then []
    else BeatOf(s, steps[0], mac) + Beats(Next(s, steps[0]), steps[1..], mac)
  }

  lemma {:induction false} OfConcat(a: seq<SeenEvent>, b: seq<SeenEvent>, mac: string)
    ensures Of(a + b, mac) == Of(a, mac) + Of(b, mac)
  {
    if b == [] {
      assert a + b == a;
    } else {
      var n := |b| - 1;
      assert (a + b)[..|a| + n] == a + b[..n];
      OfConcat(a, b[..n], mac);
    }
  }

  lemma OfOne(e: SeenEvent, mac: string)
    ensures Of([e], mac) == if e.mac == mac then [e] else []
  {
    assert [e][..0] == [];
    assert Of([], mac) == [];
  }

  /** One probe cycle logs at most one row per device, wherever the device comes in
      the visiting order. */
  lemma {:induction false} CycleRows(devs: map<string, Dev>, results: map<string, LivePart>, now: int, order: seq<string>, mac: string)
    requires forall i, j :: 0 <= i < j < |order| ==> order[i] != order[j]
    ensures Of(ProbeEvents(devs, results, now, order), mac) ==
            if mac in order then RowOf(devs, results, now, mac) else []
  {
    if order != [] {
      var n := |order| - 1;
      var last := order[n];
      CycleRows(devs, results, now, order[..n], mac);
      assert order == order[..n] + [last];
      var earlier := ProbeEvents(devs, results, now, order[..n]);
      var row := RowOf(devs, results, now, last);
      assert ProbeEvents(devs, results, now, order) == earlier + row;
      OfConcat(earlier, row, mac);
      if last in devs && last in results {
        OfTransition(last, devs[last].status, SignalOf(results[last]), now, mac);
      }
    }
  }

  /** What the cycle logs for one device. */
  function RowOf(devs: map<string, Dev>, results: map<string, LivePart>, now: int, mac: string): seq<SeenEvent> {
    if mac in devs && mac in results then Transition(mac, devs[mac].status, SignalOf(results[mac]), now) else []
  }

  lemma OfTransition(host: string, status: Verdict, sig: Signal, now: int, mac: string)
    ensures Of(Transition(host, status, sig, now), mac) == if host == mac then Transition(host, status, sig, now) else []
  {
    var rows := Transition(host, status, sig, now);
    if rows != [] {
      OfOne(rows[0], mac);
      assert rows == [rows[0]];
    }
  }

  lemma TrackedCommit(s: Sys, mac: string)
    requires Tracked(s, mac) && s.flight.Some?
    ensures Tracked(CommitStep(s), mac)
  {
    ApplyAt(s.j, NormBatch(s.flight.value));
  }

  lemma TrackedMerge(s: Sys, k: nat, mac: string)
    requires Tracked(s, mac) && k < |s.loads|
    ensures Tracked(MergeStep(s, k), mac)
  {
    assert mac in s.loads[k].rows;
    assert forall i :: 0 <= i < |s.loads| - 1 ==> MergeStep(s, k).loads[i] == s.loads[if i < k then i else i + 1];
  }

  lemma TrackedManage(s: Sys, a: Admin, mac: string)
    requires Tracked(s, mac) && !Untracks(Manage(a), mac)
    ensures Tracked(ManageStep(s, a), mac)
  {
    ManageRow(s.j, a, mac);
  }

  lemma TrackedStep(s: Sys, st: Step, mac: string)
    requires Tracked(s, mac) && Enabled(s, st) && !Untracks(st, mac)
    ensures Tracked(Next(s, st), mac)
  {
    match st
    case Manage(a) => TrackedManage(s, a, mac);
    case CommitFlight => TrackedCommit(s, mac);
    case MergeList(k) => TrackedMerge(s, k, mac);
    case _ =>
  }

  lemma SenseEdges(s: Sys, o: Sensing, mac: string)
    requires Tracked(s, mac) && SensingOk(s, o)
    ensures mac in SenseMem(s.mem, o).devs
    ensures Of(Emits(s.mem, o), mac) == Edges(mac, s.mem.devs[mac].status, BeatOf(s, Sense(o), mac))
    ensures SenseMem(s.mem, o).devs[mac].status == Status(s.mem.devs[mac].status, BeatOf(s, Sense(o), mac))
  {
    var d := s.mem.devs[mac];
    match o
    case Neigh(byMac, now) =>
      assert SenseMem(s.mem, o).devs[mac] == NeighDev(d, byMac, mac, now);
    case Probe(results, now, order) =>
      CycleRows(s.mem.devs, results, now, order, mac);
      if mac in results {
        var sig := SignalOf(results[mac]);
        EdgesOne(mac, d.status, sig, now);
      }
    case _ =>
  }

  lemma EdgesOne(mac: string, status: Verdict, sig: Signal, ts: int)
    ensures Edges(mac, status, [Judged(sig, ts)]) == Transition(mac, status, sig, ts)
    ensures Status(status, [Judged(sig, ts)]) == Said(StOf(sig))
  {
    assert [Judged(sig, ts)][1..] == [];
    assert Edges(mac, Said(StOf(sig)), []) == [];
    assert Status(Said(StOf(sig)), []) == Said(StOf(sig));
  }

  lemma {:induction false} EdgesConcat(mac: string, status: Verdict, a: seq<Beat>, b: seq<Beat>)
    ensures Edges(mac, status, a + b) == Edges(mac, status, a) + Edges(mac, Status(status, a), b)
    ensures Status(status, a + b) == Status(Status(status, a), b)
    decreases |a|
  {
    if a == [] {
      assert a + b == b;
    } else {
      assert (a + b)[1..] == a[1..] + b;
      var next := if a[0].Judged? then Said(StOf(a[0].sig)) else NoVerdict;
      EdgesConcat(mac, next, a[1..], b);
    }
  }

  lemma StepEdges(s: Sys, st: Step, mac: string)
    requires Tracked(s, mac) && Enabled(s, st) && !Untracks(st, mac)
    requires st.MergeList? ==> s.loads[st.k].rows[mac].mac == mac
    ensures Tracked(Next(s, st), mac)
    ensures Of(Next(s, st).emitted, mac) == Of(s.emitted, mac) + Edges(mac, s.mem.devs[mac].status, BeatOf(s, st, mac))
    ensures Next(s, st).mem.devs[mac].status == Status(s.mem.devs[mac].status, BeatOf(s, st, mac))
  {
    TrackedStep(s, st, mac);
    match st
    case Sense(o) =>
      SenseEdges(s, o, mac);
      OfConcat(s.emitted, Emits(s.mem, o), mac);
    case Tick(gateOpen) =>
      assert [Blanked][1..] == [];
      assert Edges(mac, NoVerdict, []) == [] && Status(NoVerdict, []) == NoVerdict;
    case MergeList(k) =>
      assert MergeStep(s, k).mem.devs[mac] == LoadDev(s.mem.devs, s.loads[k].rows[mac]);
    case _ =>
  }

  /** What a run needs to know about its first step. */
  lemma FirstStep(s: Sys, steps: seq<Step>, mac: string)
    requires Tracked(s, mac) && Keyed(s) && ValidRun(s, steps) && KeepsTracked(steps, mac) && steps != []
    ensures var next := Next(s, steps[0]);
            && Tracked(next, mac) && Keyed(next) && ValidRun(next, steps[1..]) && KeepsTracked(steps[1..], mac)
            && Of(next.emitted, mac) == Of(s.emitted, mac) + Edges(mac, s.mem.devs[mac].status, BeatOf(s, steps[0], mac))
            && next.mem.devs[mac].status == Status(s.mem.devs[mac].status, BeatOf(s, steps[0], mac))
  {
    assert !Untracks(steps[0], mac);
    assert forall i :: 0 <= i < |steps| - 1 ==> steps[1..][i] == steps[i + 1];
    StepEdges(s, steps[0], mac);
    KeyedStep(s, steps[0]);
  }

  /** Over any run in which the device stays tracked, the rows emitted for it are
      exactly the edges of its verdict stream, and its status is the last verdict. */
  lemma {:induction false} HistoryIsTheEdges(s: Sys, steps: seq<Step>, mac: string)
    requires Tracked(s, mac) && Keyed(s) && ValidRun(s, steps) && KeepsTracked(steps, mac)
    ensures Tracked(Run(s, steps), mac)
    ensures Of(Run(s, steps).emitted, mac) ==
            Of(s.emitted, mac) + Edges(mac, s.mem.devs[mac].status, Beats(s, steps, mac))
    ensures Run(s, steps).mem.devs[mac].status == Status(s.mem.devs[mac].status, Beats(s, steps, mac))
    decreases |steps|
  {
    if steps != [] {
      var next, beat := Next(s, steps[0]), BeatOf(s, steps[0], mac);
      FirstStep(s, steps, mac);
      HistoryIsTheEdges(next, steps[1..], mac);
      var rest := Beats(next, steps[1..], mac);
      EdgesConcat(mac, s.mem.devs[mac].status, beat, rest);
      Assoc(Of(s.emitted, mac), Edges(mac, s.mem.devs[mac].status, beat), Edges(mac, next.mem.devs[mac].status, rest));
    }
  }

  // ---- what edges look like -------------------------------------------------

  ghost predicate OneSession(beats: seq<Beat>) {
    forall i :: 0 <= i < |beats| ==> beats[i].Judged?
  }

  /** Verdict number i of the session differs from the one before it. */
  predicate Flips(beats: seq<Beat>, i: int)
    requires 0 < i < |beats| && beats[i].Judged? && beats[i - 1].Judged?
  {
    StOf(beats[i].sig) != StOf(beats[i - 1].sig)
  }

  /** The positions at which a session changes its mind, in order. */
  function FlipsOf(beats: seq<Beat>): seq<int>
    requires OneSession(beats)
  {
    if |beats| < 2 then []
    else
      var n := |beats| - 1;
      FlipsOf(beats[..n]) + if Flips(beats, n) then [n] else []
  }

  lemma {:induction false} StatusLast(status: Verdict, beats: seq<Beat>)
    requires OneSession(beats) && beats != []
    ensures Status(status, beats) == Said(StOf(beats[|beats| - 1].sig))
    decreases |beats|
  {
    if |beats| > 1 {
      StatusLast(Said(StOf(beats[0].sig)), beats[1..]);
    } else {
      assert beats[1..] == [];
    }
  }

  /** One row per flip, at the time of the flip and with its verdict and signal. */
  ghost predicate RowsAreFlips(rows: seq<SeenEvent>, mac: string, beats: seq<Beat>)
    requires OneSession(beats)
  {
    var flips := FlipsOf(beats);
    && |rows| == |flips|
    && forall i :: 0 <= i < |flips| ==>
         && 0 < flips[i] < |beats| && Flips(beats, flips[i])
         && rows[i] == SeenEvent(mac, beats[flips[i]].ts, StOf(beats[flips[i]].sig), beats[flips[i]].sig)
  }

  /** Within one session of the gate the history has one row per flip, and none for
      the first verdict. */
  lemma {:induction false} OneRowPerFlip(mac: string, beats: seq<Beat>)
    requires OneSession(beats)
    ensures RowsAreFlips(Edges(mac, NoVerdict, beats), mac, beats)
  {
    if |beats| == 1 {
      EdgesOne(mac, NoVerdict, beats[0].sig, beats[0].ts);
      assert beats == [Judged(beats[0].sig, beats[0].ts)];
    } else if |beats| > 1 {
      var n := |beats| - 1;
      var init := beats[..n];
      OneRowPerFlip(mac, init);
      StatusLast(NoVerdict, init);
      assert beats == init + [beats[n]] && beats[n] == Judged(beats[n].sig, beats[n].ts);
      EdgesConcat(mac, NoVerdict, init, [beats[n]]);
      EdgesOne(mac, Said(StOf(beats[n - 1].sig)), beats[n].sig, beats[n].ts);
    }
  }

  lemma {:induction false} FlipsComplete(beats: seq<Beat>, i: int)
    requires OneSession(beats) && 0 < i < |beats|
    ensures i in FlipsOf(beats) <==> Flips(beats, i)
  {
    var n := |beats| - 1;
    assert forall k :: k in FlipsOf(beats[..n]) ==> k < n by {
      FlipsBelow(beats[..n]);
    }
    if i < n {
      FlipsComplete(beats[..n], i);
    }
  }

  lemma {:induction false} FlipsBelow(beats: seq<Beat>)
    requires OneSession(beats)
    ensures forall k :: k in FlipsOf(beats) ==> 0 < k < |beats|
  {
    if |beats| >= 2 {
      FlipsBelow(beats[..|beats| - 1]);
    }
  }

  /** From any status: rows alternate, the first one contradicts the status it
      started from, "none" is logged exactly for down, and the last row states the
      status that the device ends with. */
  lemma {:induction false} EdgesAlternate(mac: string, status: Verdict, beats: seq<Beat>)
    requires OneSession(beats)
    ensures var rows := Edges(mac, status, beats);
            && (forall i :: 0 <= i < |rows| - 1 ==> rows[i].st != rows[i + 1].st)
            && (forall i :: 0 <= i < |rows| ==> (rows[i].signal == NoSignal <==> rows[i].st == Down))
            && (rows != [] && status.Said? ==> rows[0].st != status.st)
            && (rows != [] ==> Status(status, beats) == Said(rows[|rows| - 1].st))
            && (rows == [] && status.Said? ==> Status(status, beats) == status)
    decreases |beats|
  {
    if beats != [] {
      EdgesAlternate(mac, Said(StOf(beats[0].sig)), beats[1..]);
    }
  }

  // ---- sessions of a running process -------------------------------------------

  lemma TrackedBoot(j: Journal, order: seq<string>, clock: int, mac: string)
    requires KeyedJournal(j) && mac in j.rows
    ensures Tracked(Boot(j, order, clock), mac) && Keyed(Boot(j, order, clock))
    ensures Boot(j, order, clock).mem.devs[mac].status == NoVerdict
  {
    KeyedBoot(j, order, clock);
    assert Boot(j, order, clock).mem.devs[mac] == LoadDev(map[], j.rows[mac]);
  }

  lemma BlankAfterTick(s: Sys, mac: string)
    requires GateInv(s) && mac in s.mem.devs
    ensures mac in TickStep(s, false).mem.devs && TickStep(s, false).mem.devs[mac].status == NoVerdict
  {
  }

  lemma LastStep(s: Sys, steps: seq<Step>, last: Step)
    requires ValidRun(s, steps + [last])
    ensures ValidRun(s, steps) && Run(s, steps + [last]) == Next(Run(s, steps), last)
  {
    RunAppend(s, steps, [last]);
    RunCons(Run(s, steps), last, []);
    assert [last] + [] == [last];
  }

  /** A run that ends with a tick at a closed gate. */
  lemma BlankedRun(s: Sys, steps: seq<Step>, mac: string)
    requires GateInv(s) && Tracked(s, mac) && Keyed(s)
    requires ValidRun(s, steps + [Tick(false)]) && KeepsTracked(steps, mac)
    ensures var u := Run(s, steps + [Tick(false)]);
            Tracked(u, mac) && Keyed(u) && u.mem.devs[mac].status == NoVerdict
  {
    LastStep(s, steps, Tick(false));
    GateRun(s, steps);
    KeyedRun(s, steps);
    HistoryIsTheEdges(s, steps, mac);
    var v := Run(s, steps);
    BlankAfterTick(v, mac);
    TrackedStep(v, Tick(false), mac);
    KeyedStep(v, Tick(false));
  }

  /** From any state in which the device has no verdict: until the next blanking,
      whatever is interleaved, the rows emitted for it are one per flip. */
  lemma SessionRows(u: Sys, session: seq<Step>, mac: string) returns (rows: seq<SeenEvent>)
    requires Tracked(u, mac) && Keyed(u) && u.mem.devs[mac].status == NoVerdict
    requires ValidRun(u, session) && KeepsTracked(session, mac) && OneSession(Beats(u, session, mac))
    ensures Of(Run(u, session).emitted, mac) == Of(u.emitted, mac) + rows
    ensures RowsAreFlips(rows, mac, Beats(u, session, mac))
  {
    HistoryIsTheEdges(u, session, mac);
    rows := Edges(mac, NoVerdict, Beats(u, session, mac));
    OneRowPerFlip(mac, Beats(u, session, mac));
  }

  /** The first session of a process. */
  lemma FirstSessionLog(j: Journal, order: seq<string>, clock: int, session: seq<Step>, mac: string) returns (rows: seq<SeenEvent>)
    requires KeyedJournal(j) && mac in j.rows
    requires var u := Boot(j, order, clock);
             ValidRun(u, session) && KeepsTracked(session, mac) && OneSession(Beats(u, session, mac))
    ensures var u := Boot(j, order, clock);
            && u.emitted == [] && Of(Run(u, session).emitted, mac) == Of([], mac) + rows
            && RowsAreFlips(rows, mac, Beats(u, session, mac))
  {
    TrackedBoot(j, order, clock, mac);
    rows := SessionRows(Boot(j, order, clock), session, mac);
  }

  /** Every later session: after a tick that finds the gate closed, wherever in the
      life of the process that is. */
  lemma SessionLog(j: Journal, order: seq<string>, clock: int, before: seq<Step>, session: seq<Step>, mac: string) returns (rows: seq<SeenEvent>)
    requires KeyedJournal(j) && mac in j.rows
    requires ValidRun(Boot(j, order, clock), before + [Tick(false)]) && KeepsTracked(before, mac)
    requires var u := Run(Boot(j, order, clock), before + [Tick(false)]);
             ValidRun(u, session) && KeepsTracked(session, mac) && OneSession(Beats(u, session, mac))
    ensures var u := Run(Boot(j, order, clock), before + [Tick(false)]);
            && Of(Run(u, session).emitted, mac) == Of(u.emitted, mac) + rows
            && RowsAreFlips(rows, mac, Beats(u, session, mac))
  {
    TrackedBoot(j, order, clock, mac);
    GateBoot(j, order, clock);
    BlankedRun(Boot(j, order, clock), before, mac);
    rows := SessionRows(Run(Boot(j, order, clock), before + [Tick(false)]), session, mac);
  }
}
