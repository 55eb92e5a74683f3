/** Untracked hosts: which address, name and sighting are remembered, stored and
    dropped, in terms of the sightings themselves. */
module Hosts {
  import opened Prelude
  import opened Types
  import opened StateSpec
  import opened JournalSpec
  import opened Engine
  import opened Throttle
  import opened Durability
  import MacText

  /** Entry i is the last one of the host. */
  ghost predicate LastEntry(obs: seq<Observed>, mac: string, i: int) {
    0 <= i < |obs| && obs[i].mac == mac && forall k :: i < k < |obs| ==> obs[k].mac != mac
  }

  /** Entry i is the last one of the host that has a name. */
  ghost predicate LastNamed(obs: seq<Observed>, mac: string, i: int) {
    && 0 <= i < |obs| && obs[i].mac == mac && obs[i].name != ""
    && forall k :: i < k < |obs| && obs[k].mac == mac ==> obs[k].name == ""
  }

  ghost predicate Mentions(obs: seq<Observed>, mac: string) {
    exists i :: 0 <= i < |obs| && obs[i].mac == mac
  }

  // ---- the journal ------------------------------------------------------------

  /** The host is stored if it was or if the batch mentions it; if it does not, the row
      is as it was. */
  ghost predicate HostKept(before: map<string, Observed>, obs: seq<Observed>, after: map<string, Observed>, mac: string) {
    && (mac in after <==> mac in before || Mentions(obs, mac))
    && (!Mentions(obs, mac) && mac in before ==> after[mac] == before[mac])
  }

  /** The address is that of the last entry. */
  ghost predicate HostAddress(obs: seq<Observed>, after: map<string, Observed>, mac: string) {
    forall i :: LastEntry(obs, mac, i) ==> mac in after && after[mac].mac == mac && after[mac].ip == obs[i].ip
  }

  /** The name is that of the last entry that has one, or else the stored one. */
  ghost predicate HostName(before: map<string, Observed>, obs: seq<Observed>, after: map<string, Observed>, mac: string) {
    && (forall i :: LastNamed(obs, mac, i) ==> mac in after && after[mac].name == obs[i].name)
    && (mac in after && (forall i :: 0 <= i < |obs| && obs[i].mac == mac ==> obs[i].name == "") ==>
          after[mac].name == if mac in before then before[mac].name else "")
  }

  lemma {:induction false} FlushedKept(before: map<string, Observed>, obs: seq<Observed>, mac: string)
    ensures HostKept(before, obs, FlushHosts(before, obs), mac)
  {
    if obs != [] {
      var n := |obs| - 1;
      FlushedKept(before, obs[..n], mac);
      assert forall i :: 0 <= i < n ==> obs[..n][i] == obs[i];
    }
  }

  lemma {:induction false} FlushedAddress(before: map<string, Observed>, obs: seq<Observed>, mac: string)
    ensures HostAddress(obs, FlushHosts(before, obs), mac)
  {
    if obs != [] {
      var n := |obs| - 1;
      var rest := obs[..n];
      FlushedAddress(before, rest, mac);
      assert forall i :: 0 <= i < n ==> rest[i] == obs[i];
      forall i | LastEntry(obs, mac, i)
        ensures mac in FlushHosts(before, obs) && FlushHosts(before, obs)[mac].ip == obs[i].ip && FlushHosts(before, obs)[mac].mac == mac
      {
        if i < n {
          assert LastEntry(rest, mac, i);
        }
      }
    }
  }

  lemma {:induction false} FlushedName(before: map<string, Observed>, obs: seq<Observed>, mac: string)
    ensures HostName(before, obs, FlushHosts(before, obs), mac)
  {
    if obs != [] {
      var n := |obs| - 1;
      var rest, mid := obs[..n], FlushHosts(before, obs[..n]);
      FlushedName(before, rest, mac);
      FlushedKept(before, rest, mac);
      assert forall i :: 0 <= i < n ==> rest[i] == obs[i];
      NameSnoc(before, rest, mid, obs, mac);
    }
  }

  lemma NameSnoc(before: map<string, Observed>, rest: seq<Observed>, mid: map<string, Observed>, obs: seq<Observed>, mac: string)
    requires obs != [] && rest == obs[..|obs| - 1]
    requires HostKept(before, rest, mid, mac) && HostName(before, rest, mid, mac)
    ensures HostName(before, obs, UpsertHost(mid, obs[|obs| - 1]), mac)
  {
    var n := |obs| - 1;
    var after := UpsertHost(mid, obs[n]);
    assert forall i :: 0 <= i < n ==> rest[i] == obs[i];
    forall i | LastNamed(obs, mac, i)
      ensures mac in after && after[mac].name == obs[i].name
    {
      if i < n {
        assert LastNamed(rest, mac, i);
      }
    }
  }

  /** What a batch makes of a stored host, entry by entry; for its sighting see
      StoredSightingIsLatest. */
  lemma StoredHostMeaning(before: map<string, Observed>, obs: seq<Observed>, mac: string)
    ensures var after := FlushHosts(before, obs);
            HostKept(before, obs, after, mac) && HostAddress(obs, after, mac) && HostName(before, obs, after, mac)
  {
    FlushedKept(before, obs, mac);
    FlushedAddress(before, obs, mac);
    FlushedName(before, obs, mac);
  }

  // ---- memory -----------------------------------------------------------------

  /** The sightings of one host in a run, in order. */
  function Sightings(steps: seq<Step>, mac: string): seq<Observed>
    decreases |steps|
  {
    if steps == [] then [] else SightingOf(steps[0], mac) + Sightings(steps[1..], mac)
  }

  function SightingOf(st: Step, mac: string): seq<Observed> {
    if st.Sense? && st.o.Touch? && st.o.mac == mac then [Observed(mac, st.o.ip, st.o.name, st.o.now)] else []
  }

  /** What sightings make of a remembered host: address and time of the last one, and
      the name of the last one that had a name, or else the name before. */
  ghost predicate HostShown(before: map<string, Observed>, seen: seq<Observed>, after: map<string, Observed>, mac: string) {
    && (mac in after <==> mac in before || seen != [])
    && (seen == [] && mac in before ==> after[mac] == before[mac])
    && (seen != [] ==>
          && mac in after && after[mac].mac == mac
          && after[mac].ip == seen[|seen| - 1].ip && after[mac].lastSeen == seen[|seen| - 1].lastSeen)
    && (forall i :: LastNamed(seen, mac, i) ==> mac in after && after[mac].name == seen[i].name)
    && (mac in after && (forall i :: 0 <= i < |seen| ==> seen[i].name == "") ==>
          after[mac].name == if mac in before then before[mac].name else "")
  }

  /** The step makes memory forget the host: at once, or because its sighting is more
      than a week old. */
  predicate Drops(s: Sys, st: Step, mac: string) {
    st.Sense? && (st.o == Forget(mac) || (st.o.PruneMemory? && mac in s.mem.obs && s.mem.obs[mac].lastSeen < st.o.now - 604800))
  }

  ghost predicate NeverDropped(s: Sys, steps: seq<Step>, mac: string)
    decreases |steps|
  {
    steps != [] ==> !Drops(s, steps[0], mac) && NeverDropped(Next(s, steps[0]), steps[1..], mac)
  }

  lemma StepShown(before: map<string, Observed>, seen: seq<Observed>, s: Sys, st: Step, mac: string)
    requires HostShown(before, seen, s.mem.obs, mac) && !Drops(s, st, mac)
    requires forall i :: 0 <= i < |seen| ==> seen[i].mac == mac
    ensures HostShown(before, seen + SightingOf(st, mac), Next(s, st).mem.obs, mac)
  {
    var all := seen + SightingOf(st, mac);
    if SightingOf(st, mac) == [] {
      assert all == seen;
      SameHost(s, st, mac);
    } else {
      TouchShown(before, seen, s.mem, st.o.ip, st.o.name, st.o.now, mac);
    }
  }

  lemma SameHost(s: Sys, st: Step, mac: string)
    requires SightingOf(st, mac) == [] && !Drops(s, st, mac)
    ensures mac in Next(s, st).mem.obs <==> mac in s.mem.obs
    ensures mac in s.mem.obs ==> Next(s, st).mem.obs[mac] == s.mem.obs[mac]
  {
    match st
    case Sense(o) => SameSensed(s.mem, o, mac);
    case _ => OnlySensingTouchesHosts(s, st);
  }

  lemma OnlySensingTouchesHosts(s: Sys, st: Step)
    requires !st.Sense?
    ensures Next(s, st).mem.obs == s.mem.obs
  {
  }

  lemma SameSensed(m: Mem, o: Sensing, mac: string)
    requires !(o.Touch? && o.mac == mac) && o != Forget(mac)
    requires o.PruneMemory? && mac in m.obs ==> m.obs[mac].lastSeen >= o.now - OBSERVED_TTL
    ensures mac in SenseMem(m, o).obs <==> mac in m.obs
    ensures mac in m.obs ==> SenseMem(m, o).obs[mac] == m.obs[mac]
  {
  }

  lemma TouchShown(before: map<string, Observed>, seen: seq<Observed>, m: Mem, ip: string, name: string, now: int, mac: string)
    requires HostShown(before, seen, m.obs, mac) && forall i :: 0 <= i < |seen| ==> seen[i].mac == mac
    ensures HostShown(before, seen + [Observed(mac, ip, name, now)], TouchMem(m, mac, ip, name, now).obs, mac)
  {
    var all := seen + [Observed(mac, ip, name, now)];
    assert all[|seen|] == Observed(mac, ip, name, now) && forall i :: 0 <= i < |seen| ==> all[i] == seen[i];
    forall i | LastNamed(all, mac, i)
      ensures TouchMem(m, mac, ip, name, now).obs[mac].name == all[i].name
    {
      if i < |seen| {
        assert all[|seen|].name == "";
        assert LastNamed(seen, mac, i);
      }
    }
  }

  lemma {:induction false} RunShown(before: map<string, Observed>, seen: seq<Observed>, s: Sys, steps: seq<Step>, mac: string)
    requires HostShown(before, seen, s.mem.obs, mac) && NeverDropped(s, steps, mac)
    requires forall i :: 0 <= i < |seen| ==> seen[i].mac == mac
    ensures HostShown(before, seen + Sightings(steps, mac), Run(s, steps).mem.obs, mac)
    decreases |steps|
  {
    if steps == [] {
      assert seen + [] == seen;
    } else {
      var one, rest := SightingOf(steps[0], mac), Sightings(steps[1..], mac);
      StepShown(before, seen, s, steps[0], mac);
      RunShown(before, seen + one, Next(s, steps[0]), steps[1..], mac);
      SeenAssoc(seen, one, rest);
    }
  }

  lemma SeenAssoc(a: seq<Observed>, b: seq<Observed>, c: seq<Observed>)
    ensures (a + b) + c == a + (b + c)
  {
  }

  /** Over any run in which the host is not dropped, memory shows what was sighted. */
  lemma HostIsTheSightings(s: Sys, steps: seq<Step>, mac: string)
    requires NeverDropped(s, steps, mac)
    ensures HostShown(s.mem.obs, Sightings(steps, mac), Run(s, steps).mem.obs, mac)
  {
    RunShown(s.mem.obs, [], s, steps, mac);
    assert [] + Sightings(steps, mac) == Sightings(steps, mac);
  }

  // ---- from memory to the journal -----------------------------------------------

  lemma {:induction false} FlightStays(s: Sys, steps: seq<Step>)
    requires s.flight.Some? && ValidRun(s, steps)
    requires forall i :: 0 <= i < |steps| ==> !Settles(steps[i])
    ensures Run(s, steps).flight == s.flight
    decreases |steps|
  {
    if steps != [] {
      assert !Settles(steps[0]) && Enabled(s, steps[0]);
      assert forall i :: 0 <= i < |steps| - 1 ==> steps[1..][i] == steps[i + 1];
      FlightStep(s, steps[0]);
      FlightStays(Next(s, steps[0]), steps[1..]);
    }
  }

  lemma FlightStep(s: Sys, st: Step)
    requires s.flight.Some? && Enabled(s, st) && !Settles(st)
    ensures Next(s, st).flight == s.flight
  {
  }

  lemma {:induction false} DirtyHostEntry(obs: map<string, Observed>, order: seq<string>, mac: string)
    requires forall i, j :: 0 <= i < j < |order| ==> order[i] != order[j]
    requires forall m :: m in obs ==> obs[m].mac == m
    ensures mac in order && mac in obs ==>
              exists i :: LastEntry(DirtyHosts(obs, order), mac, i) && DirtyHosts(obs, order)[i] == obs[mac]
    ensures mac !in order ==> !Mentions(DirtyHosts(obs, order), mac)
  {
    if order != [] {
      var n := |order| - 1;
      var rest, all := DirtyHosts(obs, order[..n]), DirtyHosts(obs, order);
      DirtyHostEntry(obs, order[..n], mac);
      assert order == order[..n] + [order[n]];
      assert forall i :: 0 <= i < |rest| ==> all[i] == rest[i];
      if order[n] == mac {
        assert mac !in order[..n];
        assert mac in obs ==> LastEntry(all, mac, |rest|);
      } else if mac in order && mac in obs {
        var i :| LastEntry(rest, mac, i) && rest[i] == obs[mac];
        assert LastEntry(all, mac, i);
      }
    }
  }

  /** A marked host: the batch that carries it, once it commits, leaves the journal with
      the address, the name if there is one, and at least the sighting that memory had
      when it drained, whatever happens while the batch is in flight. */
  lemma HostIsWritten(s: Sys, visits: DrainOrder, between: seq<Step>, mac: string)
    requires Keyed(s) && Enabled(s, Drain(visits)) && mac in s.mem.obsDirty && mac in s.mem.obs
    requires ValidRun(DrainStep(s, visits), between)
    requires forall i :: 0 <= i < |between| ==> !Settles(between[i])
    ensures var t := CommitStep(Run(DrainStep(s, visits), between));
            && mac in t.j.observed && t.j.observed[mac].ip == s.mem.obs[mac].ip
            && (s.mem.obs[mac].name != "" ==> t.j.observed[mac].name == s.mem.obs[mac].name)
            && s.mem.obs[mac].lastSeen <= t.j.observed[mac].lastSeen
  {
    var s1 := DrainStep(s, visits);
    DrainCarries(s, visits, mac);
    KeyedStep(s, Drain(visits));
    FlightStays(s1, between);
    KeyedRun(s1, between);
    CommittedHosts(Run(s1, between), s.mem.obs[mac], mac);
  }

  /** The batch in flight has this record as its last one of the host. */
  ghost predicate Carries(flight: Option<Batch>, h: Observed, mac: string) {
    flight.Some? && exists i :: LastEntry(flight.value.obs, mac, i) && flight.value.obs[i] == h
  }

  lemma DrainCarries(s: Sys, visits: DrainOrder, mac: string)
    requires Enabled(s, Drain(visits)) && mac in s.mem.obsDirty && mac in s.mem.obs
    requires forall m :: m in s.mem.obs ==> s.mem.obs[m].mac == m
    ensures Carries(DrainStep(s, visits).flight, s.mem.obs[mac], mac)
  {
    DirtyHostEntry(s.mem.obs, visits.obs, mac);
    assert DrainBatch(s.mem, visits).obs == DirtyHosts(s.mem.obs, visits.obs);
  }

  lemma CommittedHosts(s: Sys, h: Observed, mac: string)
    requires Keyed(s) && Carries(s.flight, h, mac)
    ensures var after := CommitStep(s).j.observed;
            && mac in after && after[mac].ip == h.ip && (h.name != "" ==> after[mac].name == h.name)
            && h.lastSeen <= after[mac].lastSeen
  {
    KeyedCommit(s);
    CarriedHost(s.j.observed, s.flight.value.obs, h, mac);
  }

  lemma CarriedHost(before: map<string, Observed>, obs: seq<Observed>, h: Observed, mac: string)
    requires exists i :: LastEntry(obs, mac, i) && obs[i] == h
    ensures var after := FlushHosts(before, obs);
            && mac in after && after[mac].ip == h.ip && (h.name != "" ==> after[mac].name == h.name)
            && h.lastSeen <= after[mac].lastSeen
  {
    var i :| LastEntry(obs, mac, i) && obs[i] == h;
    StoredHostMeaning(before, obs, mac);
    StoredSightingIsLatest(before, obs, mac, FlushHosts(before, obs)[mac].lastSeen);
    if h.name != "" {
      assert LastNamed(obs, mac, i);
    }
  }

  // ---- forgetting -------------------------------------------------------------

  /** Forgetting and retention in memory: exactly these hosts go, with their marks. */
  lemma DropMeaning(m: Mem, macs: set<string>, mac: string)
    ensures var after := DropHosts(m, macs);
            && (mac in after.obs <==> mac in m.obs && mac !in macs)
            && (mac in after.obsDirty <==> mac in m.obsDirty && mac !in macs)
            && (mac in after.obsFlushed <==> mac in m.obsFlushed && mac !in macs)
            && (mac in after.obs ==> after.obs[mac] == m.obs[mac])
            && (mac in after.obsFlushed ==> after.obsFlushed[mac] == m.obsFlushed[mac])
            && after.devs == m.devs && after.events == m.events && after.ipMoves == m.ipMoves
  {
  }

  /** Retention keeps exactly the sightings that are not older than the cutoff: a host
      that is pruned in memory or in the journal was last seen before it. */
  lemma RetentionMeaning(obs: map<string, Observed>, before: int, mac: string)
    ensures mac in Stale(obs, before) <==> mac in obs && obs[mac].lastSeen < before
    ensures mac in PruneHosts(obs, before) <==> mac in obs && !(obs[mac].lastSeen < before)
    ensures mac in PruneHosts(obs, before) ==> PruneHosts(obs, before)[mac] == obs[mac]
  {
  }

  /** Start-up: of a host that both sides have, the later sighting is taken whole, and
      memory's if they are equally late. */
  lemma LoadedMeaning(obs: map<string, Observed>, stored: map<string, Observed>, mac: string)
    ensures var after := LoadedHosts(obs, stored);
            && (mac in after <==> mac in obs || mac in stored)
            && (mac in obs && (mac !in stored || stored[mac].lastSeen <= obs[mac].lastSeen) ==> after[mac] == obs[mac])
            && (mac in stored && (mac !in obs || obs[mac].lastSeen < stored[mac].lastSeen) ==> after[mac] == stored[mac])
  {
  }

  /** A fresh process remembers exactly the stored hosts of the last week, as they are
      stored, and owes the journal nothing. */
  lemma BootHosts(j: Journal, order: seq<string>, clock: int, mac: string)
    ensures var m := Boot(j, order, clock).mem;
            && (mac in m.obs <==> mac in j.observed && clock - 604800 <= j.observed[mac].lastSeen)
            && (mac in m.obs ==> m.obs[mac] == j.observed[mac])
            && m.obsDirty == {} && m.obsFlushed == map[] && m.ipMoves == map[] && m.events == []
  {
    RetentionMeaning(j.observed, clock - OBSERVED_TTL, mac);
  }
}
