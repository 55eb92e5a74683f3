/** The write throttle for untracked hosts, from both sides: how far apart the
    committed writes of a host are, and how far its row is behind memory. */
module Throttle {
  import opened Prelude
  import opened Types
  import opened StateSpec
  import opened JournalSpec
  import opened Engine
  import MacText

  /** The sighting of the host that a batch carries, if any. */
  function HostTime(obs: seq<Observed>, mac: string): Option<int> {
    if obs == [] then None
    else if obs[|obs| - 1].mac == mac then Some(obs[|obs| - 1].lastSeen)
    else HostTime(obs[..|obs| - 1], mac)
  }

  ghost predicate OneHost(obs: seq<Observed>, mac: string) {
    forall i, j :: 0 <= i < j < |obs| ==> !(obs[i].mac == mac && obs[j].mac == mac)
  }

  /** Every committed write of the host is at least `gap` before `t`. */
  ghost predicate WrittenBefore(written: seq<Observed>, mac: string, gap: int, t: int) {
    forall i :: 0 <= i < |written| && written[i].mac == mac ==> written[i].lastSeen + gap <= t
  }

  /** Any two committed writes of the host are a minute apart. */
  ghost predicate Spaced(written: seq<Observed>, mac: string) {
    forall i, j :: 0 <= i < j < |written| && written[i].mac == mac && written[j].mac == mac ==>
      written[i].lastSeen + WRITE_EVERY <= written[j].lastSeen
  }

  function InFlight(s: Sys, mac: string): Option<int> {
    HostTime(FlightHosts(s), mac)
  }

  ghost predicate InBounds(s: Sys, mac: string) {
    && WRITE_EVERY <= s.clock
    && (mac in s.mem.obs ==> s.mem.obs[mac].mac == mac && s.mem.obs[mac].lastSeen <= s.clock)
    && (mac in s.mem.obsDirty ==> mac in s.mem.obs)
    && (mac in s.mem.obsFlushed ==> mac in s.mem.obs && s.mem.obsFlushed[mac] <= s.mem.obs[mac].lastSeen)
    && OneHost(FlightHosts(s), mac)
  }

  /** While a sighting of the host is in flight. */
  ghost predicate FlyingInv(m: Mem, clock: int, written: seq<Observed>, t: int, mac: string) {
    && WrittenBefore(written, mac, WRITE_EVERY, t)
    && (mac in m.obsDirty ==> mac in m.obs && t + WRITE_EVERY <= m.obs[mac].lastSeen)
    && (mac in m.obsFlushed ==> m.obsFlushed[mac] == t)
    && (mac !in m.obsFlushed ==> t + WRITE_EVERY <= clock)
    && (mac in m.obs && mac !in m.obsDirty ==>
          mac in m.obsFlushed && m.obs[mac].lastSeen < t + WRITE_EVERY)
  }

  /** While none is. */
  ghost predicate GroundInv(m: Mem, clock: int, written: seq<Observed>, mac: string) {
    && (mac in m.obsDirty ==> mac in m.obs && WrittenBefore(written, mac, WRITE_EVERY, m.obs[mac].lastSeen))
    && (mac in m.obsFlushed ==> WrittenBefore(written, mac, 0, m.obsFlushed[mac]))
    && (mac !in m.obs ==> WrittenBefore(written, mac, WRITE_EVERY, clock))
    && (mac in m.obs && mac !in m.obsFlushed && mac !in m.obsDirty ==> WrittenBefore(written, mac, WRITE_EVERY, clock))
  }

  /** What the journal holds for a host that is neither dirty nor in flight. */
  ghost predicate StoredInv(m: Mem, stored: map<string, Observed>, cutoff: int, mac: string) {
    mac in m.obs && mac !in m.obsDirty ==>
      var t := if mac in m.obsFlushed then m.obsFlushed[mac] else m.obs[mac].lastSeen;
      && m.obs[mac].lastSeen < t + WRITE_EVERY
      && (cutoff <= t ==> mac in stored && t <= stored[mac].lastSeen)
  }

  ghost predicate ThrottleInv(s: Sys, mac: string) {
    && InBounds(s, mac)
    && Spaced(s.written, mac)
    && match InFlight(s, mac)
       case Some(t) => FlyingInv(s.mem, s.clock, s.written, t, mac)
       case None => GroundInv(s.mem, s.clock, s.written, mac) && StoredInv(s.mem, s.j.observed, s.cutoff, mac)
  }

  /** The steps by which a host is deliberately forgotten. */
  predicate Forgets(st: Step, mac: string) {
    || st == Sense(Forget(mac))
    || (st.Manage? && st.a.DeleteHostRow? && MacText.NormMAC(st.a.mac) == mac)
  }

  // ---- batches of hosts -----------------------------------------------------

  lemma {:induction false} HostTimeMeaning(obs: seq<Observed>, mac: string)
    ensures HostTime(obs, mac).None? <==> forall i :: 0 <= i < |obs| ==> obs[i].mac != mac
    ensures HostTime(obs, mac).Some? ==> exists i :: 0 <= i < |obs| && obs[i].mac == mac && obs[i].lastSeen == HostTime(obs, mac).value
    ensures OneHost(obs, mac) ==> forall i :: 0 <= i < |obs| && obs[i].mac == mac ==> HostTime(obs, mac) == Some(obs[i].lastSeen)
  {
    if obs != [] {
      var n := |obs| - 1;
      HostTimeMeaning(obs[..n], mac);
      assert forall i :: 0 <= i < n ==> obs[..n][i] == obs[i];
    }
  }

  lemma {:induction false} DirtyHostsAt(obs: map<string, Observed>, order: seq<string>, mac: string)
    requires forall i, j :: 0 <= i < j < |order| ==> order[i] != order[j]
    requires forall m :: m in obs ==> obs[m].mac == m
    ensures OneHost(DirtyHosts(obs, order), mac)
    ensures HostTime(DirtyHosts(obs, order), mac) == if mac in order && mac in obs then Some(obs[mac].lastSeen) else None
  {
    if order != [] {
      var n := |order| - 1;
      var rest, last := DirtyHosts(obs, order[..n]), order[n];
      DirtyHostsAt(obs, order[..n], mac);
      HostTimeMeaning(rest, mac);
      assert order == order[..n] + [last];
      if last in obs {
        assert (rest + [obs[last]])[..|rest|] == rest;
      } else {
        assert DirtyHosts(obs, order) == rest;
      }
    }
  }

  lemma {:induction false} FlushHostsAt(observed: map<string, Observed>, obs: seq<Observed>, mac: string)
    ensures var after := FlushHosts(observed, obs);
            && (HostTime(obs, mac).None? ==> (mac in after <==> mac in observed) && (mac in after ==> after[mac] == observed[mac]))
            && (HostTime(obs, mac).Some? ==> mac in after && HostTime(obs, mac).value <= after[mac].lastSeen)
  {
    if obs != [] {
      FlushHostsAt(observed, obs[..|obs| - 1], mac);
    }
  }

  /** A stored sighting is the latest of what was stored and what the batch has. */
  lemma {:induction false} StoredSightingIsLatest(observed: map<string, Observed>, obs: seq<Observed>, mac: string, t: int)
    ensures var after := FlushHosts(observed, obs);
            && (mac in after <==> mac in observed || exists i :: 0 <= i < |obs| && obs[i].mac == mac)
            && (mac in after ==>
                  (after[mac].lastSeen <= t <==>
                    && (mac in observed ==> observed[mac].lastSeen <= t)
                    && forall i :: 0 <= i < |obs| && obs[i].mac == mac ==> obs[i].lastSeen <= t))
  {
    if obs != [] {
      var n := |obs| - 1;
      StoredSightingIsLatest(observed, obs[..n], mac, t);
      assert forall i :: 0 <= i < n ==> obs[..n][i] == obs[i];
    }
  }

  // ---- steps ----------------------------------------------------------------

  lemma TouchThrottle(s: Sys, host: string, ip: string, name: string, now: int, mac: string)
    requires ThrottleInv(s, mac) && s.clock <= now
    ensures ThrottleInv(SenseStep(s, Touch(host, ip, name, now)), mac)
  {
  }

  lemma DropThrottle(s: Sys, now: int, mac: string)
    requires ThrottleInv(s, mac) && s.clock <= now
    ensures ThrottleInv(SenseStep(s, PruneMemory(now)), mac)
  {
  }

  lemma SenseThrottle(s: Sys, o: Sensing, mac: string)
    requires ThrottleInv(s, mac) && TimelyStep(s, Sense(o)) && !Forgets(Sense(o), mac)
    ensures ThrottleInv(SenseStep(s, o), mac)
  {
    match o
    case Touch(host, ip, name, now) => TouchThrottle(s, host, ip, name, now, mac);
    case PruneMemory(now) => DropThrottle(s, now, mac);
    case Forget(other) =>
    case Neigh(_, _) =>
    case Probe(_, _, _) =>
  }

  lemma DrainThrottle(s: Sys, visits: DrainOrder, mac: string)
    requires ThrottleInv(s, mac) && Enabled(s, Drain(visits))
    requires forall m :: m in s.mem.obs ==> s.mem.obs[m].mac == m
    ensures ThrottleInv(DrainStep(s, visits), mac)
  {
    var t := DrainStep(s, visits);
    DirtyHostsAt(s.mem.obs, visits.obs, mac);
    assert FlightHosts(t) == DirtyHosts(s.mem.obs, visits.obs);
    assert InFlight(t, mac) == if mac in s.mem.obsDirty then Some(s.mem.obs[mac].lastSeen) else None;
    DrainHost(s.mem, mac);
  }

  /** What a drain does to one host's marks. */
  lemma DrainHost(m: Mem, mac: string)
    ensures var after := DrainMem(m);
            && after.obs == m.obs && mac !in after.obsDirty
            && (mac in m.obsDirty && mac in m.obs ==>
                  mac in after.obsFlushed && after.obsFlushed[mac] == m.obs[mac].lastSeen)
            && (mac !in m.obsDirty ==>
                  (mac in after.obsFlushed <==> mac in m.obsFlushed)
                  && (mac in m.obsFlushed ==> after.obsFlushed[mac] == m.obsFlushed[mac]))
  {
  }

  lemma CommitThrottle(s: Sys, mac: string)
    requires ThrottleInv(s, mac) && Keyed(s) && s.flight.Some?
    ensures ThrottleInv(CommitStep(s), mac)
  {
    KeyedCommit(s);
    var obs := s.flight.value.obs;
    FlushHostsAt(s.j.observed, obs, mac);
    HostTimeMeaning(obs, mac);
    SpacedAppend(s.written, obs, mac);
  }

  lemma SpacedAppend(written: seq<Observed>, obs: seq<Observed>, mac: string)
    requires Spaced(written, mac) && OneHost(obs, mac)
    requires HostTime(obs, mac).Some? ==> WrittenBefore(written, mac, WRITE_EVERY, HostTime(obs, mac).value)
    ensures Spaced(written + obs, mac)
    ensures forall t, gap :: WrittenBefore(written + obs, mac, gap, t) <==>
              WrittenBefore(written, mac, gap, t) && (HostTime(obs, mac).Some? ==> HostTime(obs, mac).value + gap <= t)
  {
    HostTimeMeaning(obs, mac);
    var all := written + obs;
    forall t, gap
      ensures WrittenBefore(all, mac, gap, t) <==>
              WrittenBefore(written, mac, gap, t) && (HostTime(obs, mac).Some? ==> HostTime(obs, mac).value + gap <= t)
    {
      assert forall i :: 0 <= i < |written| ==> all[i] == written[i];
      assert forall i :: 0 <= i < |obs| ==> all[|written| + i] == obs[i];
    }
  }

  lemma FailThrottle(s: Sys, mac: string)
    requires ThrottleInv(s, mac) && s.flight.Some?
    ensures ThrottleInv(FailStep(s), mac)
  {
    HostTimeMeaning(s.flight.value.obs, mac);
  }

  lemma ManageThrottle(s: Sys, a: Admin, mac: string)
    requires ThrottleInv(s, mac) && !Forgets(Manage(a), mac)
    ensures ThrottleInv(ManageStep(s, a), mac)
  {
  }

  /** Everything that the invariant speaks of. */
  predicate SameHosts(s: Sys, t: Sys) {
    && t.mem.obs == s.mem.obs && t.mem.obsDirty == s.mem.obsDirty && t.mem.obsFlushed == s.mem.obsFlushed
    && t.flight == s.flight && t.written == s.written && t.j.observed == s.j.observed
    && t.clock == s.clock && t.cutoff == s.cutoff
  }

  lemma SameHostsThrottle(s: Sys, t: Sys, mac: string)
    requires ThrottleInv(s, mac) && SameHosts(s, t)
    ensures ThrottleInv(t, mac)
  {
    assert InFlight(t, mac) == InFlight(s, mac);
  }

  lemma OtherSteps(s: Sys, st: Step)
    requires st.Tick? || st.ReadList? || st.MergeList?
    ensures SameHosts(s, Next(s, st))
  {
  }

  /** Steps that leave the hosts alone. */
  lemma OtherThrottle(s: Sys, st: Step, mac: string)
    requires ThrottleInv(s, mac) && (st.Tick? || st.ReadList? || st.MergeList?)
    ensures ThrottleInv(Next(s, st), mac)
  {
    OtherSteps(s, st);
    SameHostsThrottle(s, Next(s, st), mac);
  }

  lemma StepThrottle(s: Sys, st: Step, mac: string)
    requires ThrottleInv(s, mac) && Enabled(s, st) && TimelyStep(s, st) && !Forgets(st, mac)
    requires st.CommitFlight? ==> Keyed(s)
    requires st.Drain? ==> forall m :: m in s.mem.obs ==> s.mem.obs[m].mac == m
    ensures ThrottleInv(Next(s, st), mac)
  {
    match st
    case Sense(o) => SenseThrottle(s, o, mac);
    case Manage(a) => ManageThrottle(s, a, mac);
    case Drain(visits) => DrainThrottle(s, visits, mac);
    case CommitFlight => CommitThrottle(s, mac);
    case FailFlight => FailThrottle(s, mac);
    case _ => OtherThrottle(s, st, mac);
  }

  lemma {:induction false} ThrottleRun(s: Sys, steps: seq<Step>, mac: string)
    requires ThrottleInv(s, mac) && Keyed(s) && ValidRun(s, steps) && Timely(s, steps)
    requires forall i :: 0 <= i < |steps| ==> !Forgets(steps[i], mac)
    ensures ThrottleInv(Run(s, steps), mac) && Keyed(Run(s, steps))
    decreases |steps|
  {
    if steps != [] {
      assert !Forgets(steps[0], mac);
      assert forall i :: 0 <= i < |steps| - 1 ==> steps[1..][i] == steps[i + 1];
      StepThrottle(s, steps[0], mac);
      KeyedStep(s, steps[0]);
      ThrottleRun(Next(s, steps[0]), steps[1..], mac);
    }
  }

  lemma ThrottleBoot(j: Journal, order: seq<string>, clock: int, mac: string)
    requires KeyedHosts(j.observed) && WRITE_EVERY <= clock
    requires mac in j.observed ==> j.observed[mac].lastSeen <= clock
    ensures ThrottleInv(Boot(j, order, clock), mac)
  {
  }

  /** Both sides, over any run from start-up in which the host is not forgotten:
      its committed writes are a minute apart, and while it is neither dirty nor in
      flight the journal lags memory by less than a minute, unless the sighting is
      itself about to fall out of retention. */
  lemma ThrottledBothWays(j: Journal, order: seq<string>, clock: int, steps: seq<Step>, mac: string)
    requires KeyedJournal(j) && 60 <= clock
    requires mac in j.observed ==> j.observed[mac].lastSeen <= clock
    requires ValidRun(Boot(j, order, clock), steps) && Timely(Boot(j, order, clock), steps)
    requires forall i :: 0 <= i < |steps| ==> !Forgets(steps[i], mac)
    ensures var t := Run(Boot(j, order, clock), steps);
            && (forall i, k :: 0 <= i < k < |t.written| && t.written[i].mac == mac && t.written[k].mac == mac ==>
                  t.written[i].lastSeen + 60 <= t.written[k].lastSeen)
            && (mac in t.mem.obs && mac !in t.mem.obsDirty && InFlight(t, mac).None?
                && t.cutoff + 60 <= t.mem.obs[mac].lastSeen ==>
                  mac in t.j.observed && t.mem.obs[mac].lastSeen - 60 < t.j.observed[mac].lastSeen)
  {
    KeyedBoot(j, order, clock);
    ThrottleBoot(j, order, clock, mac);
    ThrottleRun(Boot(j, order, clock), steps, mac);
  }
}
