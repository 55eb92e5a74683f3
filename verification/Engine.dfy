/** The presence engine as a step system: the memory, the journal, at most one
    batch in flight, and any number of reloads that have read the journal but not
    yet merged what they read. Every step is one critical section, so any order
    of steps is a possible interleaving of the server's goroutines. */
module Engine {
  import opened Prelude
  import opened Presence
  import opened Types
  import opened StateSpec
  import opened JournalSpec
  import MacText

  /** How long an untracked host is remembered: one week, in seconds. */
  const OBSERVED_TTL := 604800

  /** Besides the running system, history: `log` is every event ever committed
      (no Delete or prune removes from it), `emitted` every event ever appended,
      `written` every untracked-host row ever committed; `clock` is the latest
      time passed to a step and `cutoff` the latest journal prune. */
  datatype Sys = Sys(
    mem: Mem,
    j: Journal,
    flight: Option<Batch>,
    loads: seq<Snapshot>,
    probed: bool,
    clock: int,
    cutoff: int,
    log: seq<SeenEvent>,
    emitted: seq<SeenEvent>,
    written: seq<Observed>)

  /** What the loops and the handlers fold into memory. */
  datatype Sensing =
    | Neigh(byMac: map<string, Entry>, now: int)
    | Probe(results: map<string, LivePart>, now: int, order: seq<string>)
    | Touch(mac: string, ip: string, name: string, now: int)
    | Forget(mac: string)
    | PruneMemory(now: int)

  /** What the handlers, retention and the legacy backfill do to the journal. */
  datatype Admin =
    | Track(d: Device)
    | Configure(mac: string, p: Patch)
    | Delete(mac: string, done: nat)
    | DeleteHostRow(mac: string)
    | PruneHostRows(before: int)
    | PruneEventRows(before: int)
    | Backfill(mac: string, q: Lookups)
    | DropLog

  datatype Step =
    | Sense(o: Sensing)
    | Manage(a: Admin)
    | Tick(gateOpen: bool)
    | Drain(visits: DrainOrder)
    | CommitFlight
    | FailFlight
    | ReadList(order: seq<string>, lost: set<string>)
    | MergeList(k: nat)

  ghost predicate SensingOk(s: Sys, o: Sensing) {
    match o
    case Probe(results, _, order) => s.probed && Listing(order, results.Keys)
    case Touch(mac, _, _, _) => MacText.Canonical(mac)
    case _ => true
  }

  ghost predicate Enabled(s: Sys, st: Step) {
    match st
    case Sense(o) => SensingOk(s, o)
    case Drain(visits) => s.flight.None? && DrainOrderOf(visits, s.mem)
    case CommitFlight => s.flight.Some?
    case FailFlight => s.flight.Some?
    case ReadList(order, _) => Listing(order, s.j.rows.Keys)
    case MergeList(k) => k < |s.loads|
    case _ => true
  }

  /** The seen part of the batch in flight, if there is one. */
  function FlightSeen(s: Sys): seq<SeenUpdate> {
    if s.flight.Some? then s.flight.value.seen else []
  }

  function FlightEvents(s: Sys): seq<SeenEvent> {
    if s.flight.Some? then s.flight.value.events else []
  }

  function FlightHosts(s: Sys): seq<Observed> {
    if s.flight.Some? then s.flight.value.obs else []
  }

  function FlightMoves(s: Sys): seq<IpMove> {
    if s.flight.Some? then s.flight.value.moves else []
  }

  function SenseMem(m: Mem, o: Sensing): Mem {
    match o
    case Neigh(byMac, now) => NeighMem(m, byMac, now)
    case Probe(results, now, order) => ProbeMem(m, results, now, order)
    case Touch(mac, ip, name, now) => TouchMem(m, mac, ip, name, now)
    case Forget(mac) => DropHosts(m, {mac})
    case PruneMemory(now) => DropHosts(m, Stale(m.obs, now - OBSERVED_TTL))
  }

  /** The transition rows that a step appends. */
  function Emits(m: Mem, o: Sensing): seq<SeenEvent> {
    if o.Probe? then ProbeEvents(m.devs, o.results, o.now, o.order) else []
  }

  function ManageJournal(j: Journal, a: Admin): Journal {
    match a
    case Track(d) => j.(rows := AddRow(j.rows, d))
    case Configure(mac, p) => j.(rows := PatchRow(j.rows, mac, p))
    case Delete(mac, done) => DeleteDevice(j, mac, done)
    case DeleteHostRow(mac) => j.(observed := j.observed - {MacText.NormMAC(mac)})
    case PruneHostRows(before) => j.(observed := PruneHosts(j.observed, before))
    case PruneEventRows(before) => j.(events := Since(j.events, before))
    case Backfill(mac, q) => BackfillOne(j, mac, q)
    case DropLog => j.(legacy := None)
  }

  function TimeOf(o: Sensing): Option<int> {
    match o
    case Neigh(_, now) => Some(now)
    case Probe(_, now, _) => Some(now)
    case Touch(_, _, _, now) => Some(now)
    case Forget(_) => None
    case PruneMemory(now) => Some(now)
  }

  function SenseStep(s: Sys, o: Sensing): Sys {
    s.(mem := SenseMem(s.mem, o),
       clock := if TimeOf(o).Some? then Max(s.clock, TimeOf(o).value) else s.clock,
       emitted := s.emitted + Emits(s.mem, o))
  }

  function ManageStep(s: Sys, a: Admin): Sys {
    s.(j := ManageJournal(s.j, a),
       cutoff := if a.PruneHostRows? then Max(s.cutoff, a.before) else s.cutoff)
  }

  /** A tick of the probe loop up to the point where it starts probing. */
  function TickStep(s: Sys, gateOpen: bool): Sys {
    if gateOpen then s.(probed := true)
    else if s.probed then s.(mem := ClearMem(s.mem), probed := false)
    else s
  }

  /** flush drains, and is done at once if there is nothing to write. */
  function DrainStep(s: Sys, o: DrainOrder): Sys {
    var b := DrainBatch(s.mem, o);
    s.(mem := DrainMem(s.mem), flight := if b.Empty() then None else Some(b))
  }

  function CommitStep(s: Sys): Sys {
    if s.flight.None? then s
    else
      var b := NormBatch(s.flight.value);
      s.(j := Apply(s.j, b), flight := None, log := s.log + b.events, written := s.written + b.obs)
  }

  function FailStep(s: Sys): Sys {
    if s.flight.None? then s
    else s.(mem := RestoreMem(s.mem, s.flight.value), flight := None)
  }

  function MergeStep(s: Sys, k: nat): Sys {
    if k < |s.loads|
    then s.(mem := LoadMem(s.mem, s.loads[k]), loads := s.loads[..k] + s.loads[k + 1..])
    else s
  }

  function Next(s: Sys, st: Step): Sys {
    match st
    case Sense(o) => SenseStep(s, o)
    case Manage(a) => ManageStep(s, a)
    case Tick(gateOpen) => TickStep(s, gateOpen)
    case Drain(visits) => DrainStep(s, visits)
    case CommitFlight => CommitStep(s)
    case FailFlight => FailStep(s)
    case ReadList(order, lost) => s.(loads := s.loads + [Snapshot(order, Listed(s.j.rows, lost))])
    case MergeList(k) => MergeStep(s, k)
  }

  // ---- runs -----------------------------------------------------------------

  ghost predicate ValidRun(s: Sys, steps: seq<Step>)
    decreases |steps|
  {
    steps == [] || (Enabled(s, steps[0]) && ValidRun(Next(s, steps[0]), steps[1..]))
  }

  function Run(s: Sys, steps: seq<Step>): Sys
    decreases |steps|
  {
    if steps == [] then s else Run(Next(s, steps[0]), steps[1..])
  }

  lemma {:induction false} RunCons(s: Sys, st: Step, rest: seq<Step>)
    ensures Run(s, [st] + rest) == Run(Next(s, st), rest)
    ensures ValidRun(s, [st] + rest) <==> Enabled(s, st) && ValidRun(Next(s, st), rest)
  {
    assert ([st] + rest)[1..] == rest;
  }

  lemma {:induction false} RunAppend(s: Sys, a: seq<Step>, b: seq<Step>)
    ensures Run(s, a + b) == Run(Run(s, a), b)
    ensures ValidRun(s, a + b) <==> ValidRun(s, a) && ValidRun(Run(s, a), b)
    decreases |a|
  {
    if a == [] {
      assert a + b == b;
    } else {
      assert (a + b)[1..] == a[1..] + b;
      RunAppend(Next(s, a[0]), a[1..], b);
    }
  }

  lemma RunTwo(s: Sys, a: Step, b: Step)
    ensures Run(s, [a, b]) == Next(Next(s, a), b)
    ensures ValidRun(s, [a, b]) <==> Enabled(s, a) && Enabled(Next(s, a), b)
  {
    RunCons(s, a, [b]);
    RunCons(Next(s, a), b, []);
    assert [a] + [b] == [a, b] && [b] + [] == [b];
  }

  lemma TwoThenOne(s: Sys, a: Step, b: Step, c: Step)
    ensures Run(s, [a, b] + [c]) == Next(Next(Next(s, a), b), c)
    ensures ValidRun(s, [a, b] + [c]) <==> Enabled(s, a) && Enabled(Next(s, a), b) && Enabled(Next(Next(s, a), b), c)
  {
    RunCons(s, a, [b] + [c]);
    RunCons(Next(s, a), b, [c]);
    RunCons(Next(Next(s, a), b), c, []);
    assert [a, b] + [c] == [a] + ([b] + [c]) && [c] + [] == [c];
  }

  predicate TimelyStep(s: Sys, st: Step) {
    st.Sense? && TimeOf(st.o).Some? ==> s.clock <= TimeOf(st.o).value
  }

  /** The clock never goes backwards, in the order in which the steps get the lock. */
  ghost predicate Timely(s: Sys, steps: seq<Step>)
    decreases |steps|
  {
    steps == [] || (TimelyStep(s, steps[0]) && Timely(Next(s, steps[0]), steps[1..]))
  }

  lemma {:induction false} TimelyAppend(s: Sys, a: seq<Step>, b: seq<Step>)
    ensures Timely(s, a + b) <==> Timely(s, a) && Timely(Run(s, a), b)
    decreases |a|
  {
    if a == [] {
      assert a + b == b;
    } else {
      assert (a + b)[1..] == a[1..] + b;
      TimelyAppend(Next(s, a[0]), a[1..], b);
    }
  }

  // ---- start-up -------------------------------------------------------------

  /** A fresh process on a journal: Load and LoadObserved have run. */
  function Boot(j: Journal, order: seq<string>, clock: int): Sys {
    Sys(LoadObservedMem(LoadMem(EMPTY, Snapshot(order, j.rows)), PruneHosts(j.observed, clock - OBSERVED_TTL)),
        j, None, [], false, clock, clock - OBSERVED_TTL, [], [], [])
  }

  // ---- identities -----------------------------------------------------------

  ghost predicate KeyedRows(rows: map<string, Device>) {
    forall mac :: mac in rows ==> rows[mac].mac == mac && MacText.Canonical(mac)
  }

  ghost predicate KeyedHosts(obs: map<string, Observed>) {
    forall mac :: mac in obs ==> obs[mac].mac == mac && MacText.Canonical(mac)
  }

  ghost predicate CanonKeys(keys: set<string>) {
    forall mac :: mac in keys ==> MacText.Canonical(mac)
  }

  ghost predicate CanonEvents(events: seq<SeenEvent>) {
    forall i :: 0 <= i < |events| ==> MacText.Canonical(events[i].mac)
  }

  ghost predicate KeyedJournal(j: Journal) {
    KeyedRows(j.rows) && KeyedHosts(j.observed)
  }

  ghost predicate KeyedDevs(devs: map<string, Dev>) {
    forall mac :: mac in devs ==> devs[mac].cfg.mac == mac
  }

  ghost predicate KeyedMem(m: Mem) {
    && KeyedDevs(m.devs) && CanonKeys(m.devs.Keys) && CanonKeys(m.ipMoves.Keys)
    && KeyedHosts(m.obs)
    && CanonEvents(m.events)
  }

  ghost predicate KeyedFlight(flight: Option<Batch>) {
    flight.Some? ==> CanonBatch(flight.value)
  }

  ghost predicate KeyedLoads(loads: seq<Snapshot>) {
    forall k :: 0 <= k < |loads| ==> KeyedRows(loads[k].rows)
  }

  /** Every record is filed under its own MAC and every MAC is canonical. */
  ghost predicate Keyed(s: Sys) {
    KeyedJournal(s.j) && KeyedMem(s.mem) && KeyedFlight(s.flight) && KeyedLoads(s.loads)
  }

  lemma {:induction false} DirtyRowsMembers(devs: map<string, Dev>, order: seq<string>)
    ensures forall i :: 0 <= i < |DirtyRows(devs, order)| ==>
              var u := DirtyRows(devs, order)[i];
              u.mac in order && u.mac in devs && devs[u.mac].dirty && u.pres == devs[u.mac].pres
  {
    if order != [] {
      DirtyRowsMembers(devs, order[..|order| - 1]);
    }
  }

  lemma {:induction false} DirtyHostsMembers(obs: map<string, Observed>, order: seq<string>)
    requires forall mac :: mac in obs ==> obs[mac].mac == mac
    ensures forall i :: 0 <= i < |DirtyHosts(obs, order)| ==>
              var h := DirtyHosts(obs, order)[i]; h.mac in order && h.mac in obs && h == obs[h.mac]
  {
    if order != [] {
      DirtyHostsMembers(obs, order[..|order| - 1]);
    }
  }

  lemma {:induction false} MoveRowsMembers(moves: map<string, string>, order: seq<string>)
    ensures forall i :: 0 <= i < |MoveRows(moves, order)| ==>
              var m := MoveRows(moves, order)[i]; m.mac in moves && m.ip == moves[m.mac]
  {
    if order != [] {
      MoveRowsMembers(moves, order[..|order| - 1]);
    }
  }

  lemma {:induction false} RestoreMovesKeys(pending: map<string, string>, moves: seq<IpMove>)
    ensures forall mac :: mac in RestoreMoves(pending, moves) ==>
              mac in pending || exists i :: 0 <= i < |moves| && moves[i].mac == mac
  {
    if moves != [] {
      var n := |moves| - 1;
      RestoreMovesKeys(pending, moves[..n]);
      assert forall i :: 0 <= i < n ==> moves[..n][i] == moves[i];
    }
  }

  lemma {:induction false} ProbeEventsMembers(devs: map<string, Dev>, results: map<string, LivePart>, now: int, order: seq<string>)
    ensures forall i :: 0 <= i < |ProbeEvents(devs, results, now, order)| ==> ProbeEvents(devs, results, now, order)[i].mac in devs
  {
    if order != [] {
      ProbeEventsMembers(devs, results, now, order[..|order| - 1]);
    }
  }

  lemma {:induction false} FlushHostsKeyed(observed: map<string, Observed>, obs: seq<Observed>)
    requires KeyedHosts(observed) && forall i :: 0 <= i < |obs| ==> MacText.Canonical(obs[i].mac)
    ensures KeyedHosts(FlushHosts(observed, obs))
  {
    if obs != [] {
      FlushHostsKeyed(observed, obs[..|obs| - 1]);
    }
  }

  lemma DrainKeyed(m: Mem, o: DrainOrder)
    requires KeyedMem(m)
    ensures CanonBatch(DrainBatch(m, o)) && KeyedMem(DrainMem(m))
  {
    DirtyRowsMembers(m.devs, o.devs);
    DirtyHostsMembers(m.obs, o.obs);
    MoveRowsMembers(m.ipMoves, o.moves);
  }

  lemma ProbeKeyed(m: Mem, results: map<string, LivePart>, now: int, order: seq<string>)
    requires KeyedMem(m)
    ensures KeyedMem(ProbeMem(m, results, now, order))
  {
    ProbeEventsMembers(m.devs, results, now, order);
  }

  lemma RestoreKeyed(m: Mem, b: Batch)
    requires KeyedMem(m) && CanonBatch(b)
    ensures KeyedMem(RestoreMem(m, b))
  {
    RestoreMovesKeys(m.ipMoves, b.moves);
  }

  lemma ApplyKeyed(j: Journal, b: Batch)
    requires KeyedJournal(j) && CanonBatch(b)
    ensures KeyedJournal(Apply(j, b))
  {
    ApplyAt(j, b);
    FlushHostsKeyed(j.observed, b.obs);
  }

  lemma LoadKeyed(m: Mem, snap: Snapshot)
    requires KeyedMem(m) && KeyedRows(snap.rows)
    ensures KeyedMem(LoadMem(m, snap))
  {
  }

  lemma SenseKeyed(s: Sys, o: Sensing)
    requires KeyedMem(s.mem) && SensingOk(s, o)
    ensures KeyedMem(SenseMem(s.mem, o))
  {
    match o
    case Probe(results, now, order) => ProbeKeyed(s.mem, results, now, order);
    case _ =>
  }

  lemma AddKeyed(rows: map<string, Device>, d: Device)
    requires KeyedRows(rows)
    ensures KeyedRows(AddRow(rows, d))
  {
    MacText.NormIdempotent(d.mac);
  }

  lemma PatchKeyed(rows: map<string, Device>, mac: string, p: Patch)
    requires KeyedRows(rows)
    ensures KeyedRows(PatchRow(rows, mac, p))
  {
  }

  lemma ManageKeyed(j: Journal, a: Admin)
    requires KeyedJournal(j)
    ensures KeyedJournal(ManageJournal(j, a))
  {
    match a
    case Track(d) => AddKeyed(j.rows, d);
    case Configure(mac, p) => PatchKeyed(j.rows, mac, p);
    case _ =>
  }

  lemma KeyedBoot(j: Journal, order: seq<string>, clock: int)
    requires KeyedJournal(j)
    ensures Keyed(Boot(j, order, clock))
  {
  }

  /** A commit in a keyed state applies the batch as it is. */
  lemma KeyedCommit(s: Sys)
    requires Keyed(s) && s.flight.Some?
    ensures CommitStep(s).j == Apply(s.j, s.flight.value)
    ensures CommitStep(s).log == s.log + s.flight.value.events
    ensures CommitStep(s).written == s.written + s.flight.value.obs
  {
    CanonBatchIsFixed(s.flight.value);
  }

  lemma KeyedStep(s: Sys, st: Step)
    requires Keyed(s) && Enabled(s, st)
    ensures Keyed(Next(s, st))
  {
    match st
    case Drain(o) =>
      DrainKeyed(s.mem, o);
    case CommitFlight =>
      KeyedCommit(s);
      ApplyKeyed(s.j, s.flight.value);
    case FailFlight =>
      RestoreKeyed(s.mem, s.flight.value);
    case ReadList(_, _) =>
    case MergeList(k) =>
      LoadKeyed(s.mem, s.loads[k]);
    case Sense(o) =>
      SenseKeyed(s, o);
    case Manage(a) =>
      ManageKeyed(s.j, a);
    case Tick(_) =>
  }

  lemma {:induction false} KeyedRun(s: Sys, steps: seq<Step>)
    requires Keyed(s) && ValidRun(s, steps)
    ensures Keyed(Run(s, steps))
    decreases |steps|
  {
    if steps != [] {
      KeyedStep(s, steps[0]);
      KeyedRun(Next(s, steps[0]), steps[1..]);
    }
  }
}
