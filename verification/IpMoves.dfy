/** Address reconciliation: between configuration reloads, the journal's address
    overlaid with the moves in flight and then with the pending ones is always the
    address that memory shows. */
module IpMoves {
  import opened Prelude
  import opened Presence
  import opened Types
  import opened StateSpec
  import opened JournalSpec
  import opened Engine
  import opened WriteBehind
  import opened Durability
  import MacText

  /** The address the journal will hold once everything outstanding is written. */
  function Settled(s: Sys, mac: string): string
    requires mac in s.j.rows
  {
    if mac in s.mem.ipMoves then s.mem.ipMoves[mac]
    else Overlaid(s.j.rows[mac].ip, FlightMoves(s), mac)
  }

  /** The device's move in the batch, at most one and never to an empty address. */
  ghost predicate OneMove(moves: seq<IpMove>, mac: string) {
    && (forall i :: 0 <= i < |moves| && moves[i].mac == mac ==> moves[i].ip != "")
    && (forall i, j :: 0 <= i < j < |moves| ==> !(moves[i].mac == mac && moves[j].mac == mac))
  }

  ghost predicate IpInv(s: Sys, mac: string) {
    && mac in s.j.rows && mac in s.mem.devs
    && (mac in s.mem.ipMoves ==> s.mem.ipMoves[mac] != "")
    && OneMove(FlightMoves(s), mac)
    && Settled(s, mac) == s.mem.devs[mac].cfg.ip
  }

  /** The steps by which a handler sets or removes the stored address of the device. */
  predicate Readdresses(st: Step, mac: string) {
    || (st.Manage? && st.a.Track? && MacText.NormMAC(st.a.d.mac) == mac)
    || (st.Manage? && st.a.Configure? && st.a.p.ip.Some? && MacText.NormMAC(st.a.mac) == mac)
    || (st.Manage? && st.a.Delete? && st.a.done >= 3 && MacText.NormMAC(st.a.mac) == mac)
  }

  /** These, and merging a listing, set addresses from the outside. */
  predicate Reconfigures(st: Step, mac: string) {
    st.MergeList? || Readdresses(st, mac)
  }

  lemma {:induction false} MoveRowsAt(ip: string, moves: map<string, string>, order: seq<string>, mac: string)
    requires forall i, j :: 0 <= i < j < |order| ==> order[i] != order[j]
    requires mac in moves ==> moves[mac] != ""
    ensures OneMove(MoveRows(moves, order), mac)
    ensures mac !in order || mac !in moves ==> forall i :: 0 <= i < |MoveRows(moves, order)| ==> MoveRows(moves, order)[i].mac != mac
    ensures Overlaid(ip, MoveRows(moves, order), mac) == if mac in order && mac in moves then moves[mac] else ip
  {
    if order != [] {
      var n := |order| - 1;
      var rest, last := MoveRows(moves, order[..n]), order[n];
      MoveRowsAt(ip, moves, order[..n], mac);
      assert order == order[..n] + [last];
      if last in moves {
        assert (rest + [IpMove(last, moves[last])])[..|rest|] == rest;
      } else {
        assert MoveRows(moves, order) == rest;
      }
    }
  }

  /** Re-queueing: a pending move stays, a failed one comes back only if there is none. */
  lemma {:induction false} RestoreMovesAt(ip: string, pending: map<string, string>, moves: seq<IpMove>, mac: string)
    requires OneMove(moves, mac)
    ensures var after := RestoreMoves(pending, moves);
            && (mac in pending ==> mac in after && after[mac] == pending[mac])
            && (mac !in pending && mac in after ==> after[mac] == Overlaid(ip, moves, mac) != "")
            && (mac !in after ==> Overlaid(ip, moves, mac) == ip)
            && (mac !in pending ==> (mac in after <==> exists i :: 0 <= i < |moves| && moves[i].mac == mac))
  {
    if moves != [] {
      var n := |moves| - 1;
      assert forall i :: 0 <= i < n ==> moves[..n][i] == moves[i];
      RestoreMovesAt(ip, pending, moves[..n], mac);
      if moves[n].mac == mac {
        assert forall i :: 0 <= i < n ==> moves[..n][i].mac != mac;
      }
    }
  }

  lemma SenseIp(s: Sys, o: Sensing, mac: string)
    requires IpInv(s, mac)
    ensures IpInv(SenseStep(s, o), mac)
  {
    var d := s.mem.devs[mac];
    match o
    case Neigh(byMac, now) =>
      assert SenseMem(s.mem, o).devs[mac] == NeighDev(d, byMac, mac, now);
    case Probe(results, now, _) =>
      assert SenseMem(s.mem, o).devs[mac] == if mac in results then ProbeDev(d, results[mac], now) else d;
    case _ =>
  }

  lemma DrainIp(s: Sys, visits: DrainOrder, mac: string)
    requires IpInv(s, mac) && Enabled(s, Drain(visits))
    ensures IpInv(DrainStep(s, visits), mac)
  {
    MoveRowsAt(s.j.rows[mac].ip, s.mem.ipMoves, visits.moves, mac);
    assert FlightMoves(DrainStep(s, visits)) == MoveRows(s.mem.ipMoves, visits.moves);
  }

  lemma CommitIp(s: Sys, mac: string)
    requires IpInv(s, mac) && Keyed(s) && s.flight.Some?
    ensures IpInv(CommitStep(s), mac)
  {
    KeyedCommit(s);
    ApplyAt(s.j, s.flight.value);
  }

  lemma FailIp(s: Sys, mac: string)
    requires IpInv(s, mac) && s.flight.Some?
    ensures IpInv(FailStep(s), mac)
  {
    RestoreMovesAt(s.j.rows[mac].ip, s.mem.ipMoves, FlightMoves(s), mac);
  }

  lemma ManageIp(s: Sys, a: Admin, mac: string)
    requires IpInv(s, mac) && !Reconfigures(Manage(a), mac)
    ensures IpInv(ManageStep(s, a), mac)
  {
  }

  lemma StepIp(s: Sys, st: Step, mac: string)
    requires IpInv(s, mac) && Enabled(s, st) && !Reconfigures(st, mac) && (st.CommitFlight? ==> Keyed(s))
    ensures IpInv(Next(s, st), mac)
  {
    match st
    case Sense(o) => SenseIp(s, o, mac);
    case Manage(a) => ManageIp(s, a, mac);
    case Drain(visits) => DrainIp(s, visits, mac);
    case CommitFlight => CommitIp(s, mac);
    case FailFlight => FailIp(s, mac);
    case _ =>
  }

  /** Through any neighbour changes and any failed flushes. */
  lemma {:induction false} AddressReconciles(s: Sys, steps: seq<Step>, mac: string)
    requires IpInv(s, mac) && Keyed(s) && ValidRun(s, steps)
    requires forall i :: 0 <= i < |steps| ==> !Reconfigures(steps[i], mac)
    ensures IpInv(Run(s, steps), mac) && Keyed(Run(s, steps))
    decreases |steps|
  {
    if steps != [] {
      assert !Reconfigures(steps[0], mac);
      assert forall i :: 0 <= i < |steps| - 1 ==> steps[1..][i] == steps[i + 1];
      StepIp(s, steps[0], mac);
      KeyedStep(s, steps[0]);
      AddressReconciles(Next(s, steps[0]), steps[1..], mac);
    }
  }

  /** While a batch is in flight nothing but a handler changes what the journal will
      hold once it commits. */
  lemma {:induction false} FlightAddressKept(s: Sys, steps: seq<Step>, mac: string)
    requires mac in s.j.rows && s.flight.Some? && ValidRun(s, steps)
    requires forall i :: 0 <= i < |steps| ==> !Settles(steps[i]) && !Readdresses(steps[i], mac)
    ensures var t := Run(s, steps); mac in t.j.rows && t.flight == s.flight && t.j.rows[mac].ip == s.j.rows[mac].ip
    decreases |steps|
  {
    if steps != [] {
      assert !Settles(steps[0]) && !Readdresses(steps[0], mac);
      assert forall i :: 0 <= i < |steps| - 1 ==> steps[1..][i] == steps[i + 1];
      FlightAddressStep(s, steps[0], mac);
      FlightAddressKept(Next(s, steps[0]), steps[1..], mac);
    }
  }

  lemma FlightAddressStep(s: Sys, st: Step, mac: string)
    requires mac in s.j.rows && s.flight.Some? && Enabled(s, st) && !Settles(st) && !Readdresses(st, mac)
    ensures var t := Next(s, st); mac in t.j.rows && t.flight == s.flight && t.j.rows[mac].ip == s.j.rows[mac].ip
  {
    match st
    case Manage(a) => ManageAddress(s.j, a, mac);
    case _ =>
  }

  lemma ManageAddress(j: Journal, a: Admin, mac: string)
    requires mac in j.rows && !Readdresses(Manage(a), mac)
    ensures mac in ManageJournal(j, a).rows && ManageJournal(j, a).rows[mac].ip == j.rows[mac].ip
  {
  }

  /** Hence a flush that succeeds leaves the journal with the address that memory had
      when it drained, whatever happens until it commits. */
  lemma FlushConverges(s: Sys, visits: DrainOrder, between: seq<Step>, mac: string)
    requires IpInv(s, mac) && Keyed(s) && Enabled(s, Drain(visits)) && DrainStep(s, visits).flight.Some?
    requires ValidRun(DrainStep(s, visits), between)
    requires forall i :: 0 <= i < |between| ==> !Settles(between[i]) && !Readdresses(between[i], mac)
    ensures var t := CommitStep(Run(DrainStep(s, visits), between));
            mac in t.j.rows && t.j.rows[mac].ip == s.mem.devs[mac].cfg.ip
  {
    var s1 := DrainStep(s, visits);
    DrainIp(s, visits, mac);
    KeyedStep(s, Drain(visits));
    FlightAddressKept(s1, between, mac);
    KeyedRun(s1, between);
    CommitAddress(Run(s1, between), mac);
  }

  lemma CommitAddress(s: Sys, mac: string)
    requires mac in s.j.rows && Keyed(s) && s.flight.Some?
    ensures mac in CommitStep(s).j.rows && CommitStep(s).j.rows[mac].ip == Overlaid(s.j.rows[mac].ip, FlightMoves(s), mac)
  {
    KeyedCommit(s);
    ApplyAt(s.j, s.flight.value);
  }

  /** With nothing to write, the journal has that address already. */
  lemma NothingToWrite(s: Sys, visits: DrainOrder, mac: string)
    requires IpInv(s, mac) && Enabled(s, Drain(visits)) && DrainStep(s, visits).flight.None?
    ensures s.j.rows[mac].ip == s.mem.devs[mac].cfg.ip
  {
    DrainIp(s, visits, mac);
  }

  lemma BootIp(j: Journal, order: seq<string>, clock: int, mac: string)
    requires mac in j.rows && j.rows[mac].mac == mac
    ensures IpInv(Boot(j, order, clock), mac)
  {
    assert Boot(j, order, clock).mem.devs[mac] == LoadDev(map[], j.rows[mac]);
  }

  /** So it is from the start of the process until the first reconfiguration. */
  lemma ReconcilesFromStart(j: Journal, order: seq<string>, clock: int, steps: seq<Step>, mac: string)
    requires KeyedJournal(j) && mac in j.rows && ValidRun(Boot(j, order, clock), steps)
    requires forall i :: 0 <= i < |steps| ==> !Reconfigures(steps[i], mac)
    ensures var t := Run(Boot(j, order, clock), steps);
            mac in t.j.rows && mac in t.mem.devs && Settled(t, mac) == t.mem.devs[mac].cfg.ip
  {
    BootIp(j, order, clock, mac);
    KeyedBoot(j, order, clock);
    AddressReconciles(Boot(j, order, clock), steps, mac);
  }

  // ---- the reload that forgets a move ---------------------------------------

  ghost predicate HasMove(moves: seq<IpMove>, mac: string) {
    exists i :: 0 <= i < |moves| && moves[i].mac == mac
  }

  /** A reload replaces the address in memory by the listed one, however old the
      listing is. It agrees with what will be written exactly when the listed address
      is that of the pending move, or else of the move in flight, or else of the row. */
  lemma ReloadAgreesIff(s: Sys, k: nat, mac: string)
    requires IpInv(s, mac) && k < |s.loads| && mac in s.loads[k].rows && s.loads[k].rows[mac].mac == mac
    ensures var ip := s.loads[k].rows[mac].ip;
            IpInv(MergeStep(s, k), mac) <==>
              if mac in s.mem.ipMoves then s.mem.ipMoves[mac] == ip
              else if HasMove(FlightMoves(s), mac)
              then forall i :: 0 <= i < |FlightMoves(s)| && FlightMoves(s)[i].mac == mac ==> FlightMoves(s)[i].ip == ip
              else s.j.rows[mac].ip == ip
  {
    assert MergeStep(s, k).mem.devs[mac] == LoadDev(s.mem.devs, s.loads[k].rows[mac]);
    OverlaidIs(s.j.rows[mac].ip, FlightMoves(s), mac, s.loads[k].rows[mac].ip);
  }

  lemma {:induction false} OverlaidIs(stored: string, moves: seq<IpMove>, mac: string, ip: string)
    requires OneMove(moves, mac)
    ensures Overlaid(stored, moves, mac) == ip <==>
            if HasMove(moves, mac) then forall i :: 0 <= i < |moves| && moves[i].mac == mac ==> moves[i].ip == ip
            else stored == ip
  {
    if moves != [] {
      var n := |moves| - 1;
      assert forall i :: 0 <= i < n ==> moves[..n][i] == moves[i];
      OverlaidIs(stored, moves[..n], mac, ip);
      assert HasMove(moves, mac) <==> HasMove(moves[..n], mac) || moves[n].mac == mac;
      if moves[n].mac == mac {
        assert forall i :: 0 <= i < n ==> moves[i].mac != mac;
      }
    }
  }

  /** After such a reload the next sighting of the device repairs the disagreement
      exactly when the kernel's address is not the one the reload put back. */
  lemma SightingRepairsIff(s: Sys, byMac: map<string, Entry>, now: int, mac: string)
    requires mac in s.j.rows && mac in s.mem.devs
    requires mac in byMac && byMac[mac].ip != ""
    requires Settled(s, mac) != s.mem.devs[mac].cfg.ip
    ensures var t := SenseStep(s, Neigh(byMac, now));
            && mac in t.mem.devs
            && (Settled(t, mac) == t.mem.devs[mac].cfg.ip <==> byMac[mac].ip != s.mem.devs[mac].cfg.ip)
  {
    assert SenseMem(s.mem, Neigh(byMac, now)).devs[mac] == NeighDev(s.mem.devs[mac], byMac, mac, now);
  }

  /** The device moves, a reload reads and merges before the flush, the device moves
      back: the flush then writes the address that the device has left, and nothing
      is outstanding that would put it right. */
  lemma ReloadCanStrandAMove(j: Journal, clock: int, to: string, now: int, mac: string) returns (steps: seq<Step>)
    requires KeyedJournal(j) && j.rows.Keys == {mac} && j.observed == map[]
    requires to != "" && j.rows[mac].ip != "" && to != j.rows[mac].ip
    ensures steps == [Sense(Neigh(Seen(to, mac), now)), ReadList([mac], {})] +
                     [MergeList(0), Sense(Neigh(Seen(j.rows[mac].ip, mac), now))] +
                     [Drain(DrainOrder([mac], [], [mac])), CommitFlight]
    ensures ValidRun(Boot(j, [mac], clock), steps)
    ensures var t := Run(Boot(j, [mac], clock), steps);
            && mac in t.j.rows && mac in t.mem.devs && t.flight.None? && mac !in t.mem.ipMoves
            && t.mem.devs[mac].cfg.ip == j.rows[mac].ip && t.j.rows[mac].ip == to
  {
    var home, visits := j.rows[mac].ip, DrainOrder([mac], [], [mac]);
    var s := Boot(j, [mac], clock);
    var a, b := Sense(Neigh(Seen(to, mac), now)), ReadList([mac], {});
    var c, d := MergeList(0), Sense(Neigh(Seen(home, mac), now));
    steps := [a, b] + [c, d] + [Drain(visits), CommitFlight];
    KeyedBoot(j, [mac], clock);
    AwayAndBack(j, clock, to, now, mac, a, b, c, d);
    KeyedFour(s, a, b, c, d);
    var s4 := Next(Next(Next(Next(s, a), b), c), d);
    WritesMove(s4, visits, to, mac);
    FourAndTwo(s, a, b, c, d, Drain(visits), CommitFlight, s4);
  }

  lemma AwayAndBack(j: Journal, clock: int, to: string, now: int, mac: string, a: Step, b: Step, c: Step, d: Step)
    requires KeyedJournal(j) && j.rows.Keys == {mac} && j.observed == map[]
    requires to != "" && j.rows[mac].ip != "" && to != j.rows[mac].ip
    requires a == Sense(Neigh(Seen(to, mac), now)) && b == ReadList([mac], {})
    requires c == MergeList(0) && d == Sense(Neigh(Seen(j.rows[mac].ip, mac), now))
    ensures var s := Boot(j, [mac], clock);
            && Enabled(s, a) && Enabled(Next(s, a), b)
            && Enabled(Next(Next(s, a), b), c) && Enabled(Next(Next(Next(s, a), b), c), d)
    ensures var s4 := Next(Next(Next(Next(Boot(j, [mac], clock), a), b), c), d);
            && mac in s4.j.rows && s4.mem.devs.Keys == {mac} && s4.flight.None? && s4.mem.obsDirty == {}
            && s4.mem.ipMoves == map[mac := to] && s4.mem.devs[mac].cfg.ip == j.rows[mac].ip
  {
    var s := Boot(j, [mac], clock);
    MovesAway(j, clock, to, now, mac);
    MovesBack(Next(Next(s, a), b), to, j.rows[mac].ip, now, mac);
  }

  lemma KeyedFour(s: Sys, a: Step, b: Step, c: Step, d: Step)
    requires Keyed(s) && Enabled(s, a) && Enabled(Next(s, a), b)
    requires Enabled(Next(Next(s, a), b), c) && Enabled(Next(Next(Next(s, a), b), c), d)
    ensures Keyed(Next(Next(Next(Next(s, a), b), c), d))
  {
    KeyedStep(s, a);
    KeyedStep(Next(s, a), b);
    KeyedStep(Next(Next(s, a), b), c);
    KeyedStep(Next(Next(Next(s, a), b), c), d);
  }

  lemma FourAndTwo(s: Sys, a: Step, b: Step, c: Step, d: Step, e: Step, f: Step, s4: Sys)
    requires Enabled(s, a) && Enabled(Next(s, a), b)
    requires Enabled(Next(Next(s, a), b), c) && Enabled(Next(Next(Next(s, a), b), c), d)
    requires s4 == Next(Next(Next(Next(s, a), b), c), d) && Enabled(s4, e) && Enabled(Next(s4, e), f)
    ensures ValidRun(s, [a, b] + [c, d] + [e, f]) && Run(s, [a, b] + [c, d] + [e, f]) == Next(Next(s4, e), f)
  {
    RunTwo(s, a, b);
    RunTwo(Next(Next(s, a), b), c, d);
    RunTwo(s4, e, f);
    RunAppend(s, [a, b], [c, d]);
    RunAppend(s, [a, b] + [c, d], [e, f]);
  }

  function Seen(ip: string, mac: string): map<string, Entry> {
    map[mac := Entry(ip, mac, ArpUp, 0)]
  }

  lemma MovesAway(j: Journal, clock: int, to: string, now: int, mac: string)
    requires j.rows.Keys == {mac} && j.rows[mac].mac == mac && j.observed == map[]
    requires to != "" && to != j.rows[mac].ip
    ensures var s2 := Next(Next(Boot(j, [mac], clock), Sense(Neigh(Seen(to, mac), now))), ReadList([mac], {}));
            && s2.loads == [Snapshot([mac], j.rows)] && s2.j == j && s2.flight.None?
            && s2.mem.devs.Keys == {mac} && s2.mem.obsDirty == {} && s2.mem.ipMoves == map[mac := to]
  {
    var s := Boot(j, [mac], clock);
    var there := Seen(to, mac);
    assert s.mem.devs[mac] == LoadDev(map[], j.rows[mac]);
    assert NeighMoves(s.mem.devs, there) == map[mac := to];
    NothingLost(j.rows);
  }

  lemma MovesBack(s: Sys, to: string, home: string, now: int, mac: string)
    requires s.j.rows.Keys == {mac} && s.j.rows[mac].ip == home && s.j.rows[mac].mac == mac
    requires s.loads == [Snapshot([mac], s.j.rows)] && s.mem.devs.Keys == {mac} && s.mem.ipMoves == map[mac := to]
    ensures var s4 := Next(Next(s, MergeList(0)), Sense(Neigh(Seen(home, mac), now)));
            && s4.j == s.j && s4.flight == s.flight && s4.mem.devs.Keys == {mac} && s4.mem.obsDirty == s.mem.obsDirty
            && s4.mem.ipMoves == map[mac := to] && s4.mem.devs[mac].cfg.ip == home
  {
    var m3 := LoadMem(s.mem, s.loads[0]);
    assert m3.devs[mac] == LoadDev(s.mem.devs, s.j.rows[mac]) && m3.devs.Keys == {mac};
    SeenAtHome(m3, home, now, mac);
  }

  lemma SeenAtHome(m: Mem, home: string, now: int, mac: string)
    requires m.devs.Keys == {mac} && m.devs[mac].cfg.ip == home
    ensures var m' := NeighMem(m, Seen(home, mac), now);
            && m'.devs.Keys == {mac} && m'.devs[mac].cfg.ip == home && m'.ipMoves == m.ipMoves && m'.obsDirty == m.obsDirty
  {
    assert NeighMoves(m.devs, Seen(home, mac)) == map[];
    assert NeighMem(m, Seen(home, mac), now).devs[mac] == NeighDev(m.devs[mac], Seen(home, mac), mac, now);
  }

  lemma WritesMove(s: Sys, visits: DrainOrder, to: string, mac: string)
    requires Keyed(s) && mac in s.j.rows && s.mem.devs.Keys == {mac} && s.flight.None? && s.mem.obsDirty == {}
    requires s.mem.ipMoves == map[mac := to] && to != "" && visits == DrainOrder([mac], [], [mac])
    ensures Enabled(s, Drain(visits)) && DrainStep(s, visits).flight.Some?
    ensures var t := CommitStep(DrainStep(s, visits));
            && mac in t.j.rows && t.j.rows[mac].ip == to && t.flight.None? && mac !in t.mem.ipMoves
            && mac in t.mem.devs && t.mem.devs[mac].cfg.ip == s.mem.devs[mac].cfg.ip
  {
    var s1 := DrainStep(s, visits);
    assert MoveRows(s.mem.ipMoves, visits.moves) == [IpMove(mac, to)] by {
      assert visits.moves[..0] == [];
    }
    MoveRowsAt(s.j.rows[mac].ip, s.mem.ipMoves, visits.moves, mac);
    KeyedStep(s, Drain(visits));
    CommitAddress(s1, mac);
  }
}
