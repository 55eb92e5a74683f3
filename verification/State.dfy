/** The server's in-memory model of presence: a mutable object whose methods are
    the critical sections of its mutex. Every method is proved to do exactly what
    StateSpec says. */
module StateObject {
  import opened Prelude
  import opened Presence
  import opened Types
  import opened StateSpec
  import opened HostOrder

  ghost predicate DistinctDevices(list: seq<Device>) {
    forall i, j :: 0 <= i < j < |list| ==> list[i].mac != list[j].mac
  }

  /** A listing of devices as a lookup table. */
  function SnapshotOf(list: seq<Device>): Snapshot {
    Snapshot(seq(|list|, i requires 0 <= i < |list| => list[i].mac),
             RowsOf(list))
  }

  function RowsOf(list: seq<Device>): map<string, Device> {
    if list == [] then map[]
    else RowsOf(list[..|list| - 1])[list[|list| - 1].mac := list[|list| - 1]]
  }

  lemma RowsOfSnoc(list: seq<Device>, d: Device)
    ensures RowsOf(list + [d]) == RowsOf(list)[d.mac := d]
  {
    assert (list + [d])[..|list|] == list;
  }

  lemma {:induction false} RowsOfAt(list: seq<Device>, i: nat)
    requires DistinctDevices(list) && i < |list|
    ensures list[i].mac in RowsOf(list) && RowsOf(list)[list[i].mac] == list[i]
  {
    var n := |list| - 1;
    if i < n {
      RowsOfAt(list[..n], i);
    }
  }

  lemma {:induction false} RowsOfKeys(list: seq<Device>)
    ensures forall mac :: mac in RowsOf(list) ==> RowsOf(list)[mac] in list && RowsOf(list)[mac].mac == mac
  {
    if list != [] {
      RowsOfKeys(list[..|list| - 1]);
    }
  }

  function HostsOf(list: seq<Observed>): map<string, Observed> {
    if list == [] then map[]
    else HostsOf(list[..|list| - 1])[list[|list| - 1].mac := list[|list| - 1]]
  }

  lemma {:induction false} HostsOfKeys(list: seq<Observed>)
    ensures forall mac :: mac in HostsOf(list) ==> HostsOf(list)[mac] in list && HostsOf(list)[mac].mac == mac
  {
    if list != [] {
      HostsOfKeys(list[..|list| - 1]);
    }
  }

  lemma HostsOfSnoc(list: seq<Observed>, i: nat)
    requires i < |list| && DistinctMacs(list)
    ensures HostsOf(list[..i + 1]) == HostsOf(list[..i])[list[i].mac := list[i]]
    ensures list[i].mac !in HostsOf(list[..i])
  {
    assert list[..i + 1][..i] == list[..i];
    HostsOfKeys(list[..i]);
  }

  lemma LoadedHostsSnoc(obs: map<string, Observed>, stored: map<string, Observed>, o: Observed)
    requires o.mac !in stored
    ensures var cur := LoadedHosts(obs, stored);
            LoadedHosts(obs, stored[o.mac := o]) ==
            if o.mac !in cur || o.lastSeen > cur[o.mac].lastSeen then cur[o.mac := o] else cur
  {
  }

  class State {
    var devs: map<string, Dev>
    var order: seq<string>
    var obs: map<string, Observed>
    var obsDirty: set<string>
    var obsFlushed: map<string, int>
    var ipMoves: map<string, string>
    var events: seq<SeenEvent>

    function View(): Mem
      reads this
    {
      Mem(devs, order, obs, obsDirty, obsFlushed, ipMoves, events)
    }

    /** Every remembered host is filed under its own MAC. */
    ghost predicate Valid()
      reads this
    {
      forall mac :: mac in obs ==> obs[mac].mac == mac
    }

    constructor ()
      ensures Valid() && View() == EMPTY
    {
      devs, order, obs, obsDirty := map[], [], map[], {};
      obsFlushed, ipMoves, events := map[], map[], [];
    }

    /** The merging half of Load. The store's MACs are a primary key, so a
        listing never repeats one. */
    method Merge(list: seq<Device>)
      requires DistinctDevices(list)
      modifies this
      ensures View() == LoadMem(old(View()), SnapshotOf(list))
    {
      var ord: seq<string> := [];
      var next: map<string, Dev> := map[];
      for i := 0 to |list|
        invariant ord == seq(i, k requires 0 <= k < i => list[k].mac)
        invariant next == map mac | mac in RowsOf(list[..i]) :: LoadDev(devs, RowsOf(list[..i])[mac])
        invariant View() == old(View())
      {
        var d := list[i];
        assert list[..i + 1][..i] == list[..i];
        ord := ord + [d.mac];
        if d.mac !in devs {
          next := next[d.mac := Dev(d, d.pres, NO_LIVE, ArpDown, -1, NoVerdict, false)];
        } else {
          next := next[d.mac := devs[d.mac].(cfg := d, pres := Join(devs[d.mac].pres, d.pres))];
        }
        assert RowsOf(list[..i + 1]) == RowsOf(list[..i])[d.mac := d];
      }
      assert list[..|list|] == list;
      devs, order := next, ord;
    }

    /** The seeding half of LoadObserved. */
    method MergeObserved(stored: seq<Observed>)
      requires Valid() && DistinctMacs(stored)
      modifies this`obs
      ensures Valid() && View() == LoadObservedMem(old(View()), HostsOf(stored))
    {
      ghost var obs0 := obs;
      for i := 0 to |stored|
        invariant obs == LoadedHosts(obs0, HostsOf(stored[..i]))
      {
        var o := stored[i];
        HostsOfSnoc(stored, i);
        LoadedHostsSnoc(obs0, HostsOf(stored[..i]), o);
        if o.mac !in obs || o.lastSeen > obs[o.mac].lastSeen {
          obs := obs[o.mac := o];
        }
      }
      assert stored[..|stored|] == stored;
      HostsOfKeys(stored);
    }

    method ApplyNeigh(byMac: map<string, Entry>, now: int)
      modifies this`devs, this`ipMoves
      ensures View() == NeighMem(old(View()), byMac, now)
    {
      var next, moves := NeighLoop(devs, byMac, now);
      devs, ipMoves := next, ipMoves + moves;
    }

    static method NeighLoop(devs: map<string, Dev>, byMac: map<string, Entry>, now: int)
      returns (next: map<string, Dev>, moves: map<string, string>)
      ensures next == NeighDevs(devs, byMac, now)
      ensures moves == NeighMoves(devs, byMac)
    {
      next, moves := map[], map[];
      var todo := devs.Keys;
      while todo != {}
        invariant todo <= devs.Keys && next.Keys == devs.Keys - todo
        invariant forall m :: m in next ==> next[m] == NeighDev(devs[m], byMac, m, now)
        invariant forall m :: m in moves <==> m in next && Moved(devs[m], byMac, m)
        invariant forall m :: m in moves ==> moves[m] == byMac[m].ip
      {
        var mac :| mac in todo;
        todo := todo - {mac};
        var ds, moved := NeighOne(devs[mac], byMac, mac, now);
        next := next[mac := ds];
        if moved {
          moves := moves[mac := byMac[mac].ip];
        }
      }
    }

    /** The body of the neighbour loop for one device. */
    static method NeighOne(was: Dev, byMac: map<string, Entry>, mac: string, now: int) returns (ds: Dev, moved: bool)
      ensures ds == NeighDev(was, byMac, mac, now) && moved == Moved(was, byMac, mac)
    {
      ds, moved := was, false;
      if mac !in byMac {
        ds := ds.(arp := ArpDown, arpSeen := -1);
        return;
      }
      var e := byMac[mac];
      ds := ds.(arp := e.state, arpSeen := e.seenSec);
      if now > ds.pres.seen {
        ds := ds.(pres := ds.pres.(seen := now), dirty := true);
      }
      if e.ip != "" && e.ip != ds.cfg.ip {
        ds := ds.(cfg := ds.cfg.(ip := e.ip));
        moved := true;
      }
    }

    method ApplyProbes(results: map<string, LivePart>, now: int) returns (ghost visited: seq<string>)
      modifies this`devs, this`events
      ensures Listing(visited, results.Keys)
      ensures View() == ProbeMem(old(View()), results, now, visited)
    {
      var next, logged;
      next, logged, visited := ProbeLoop(devs, results, now);
      devs, events := devs + next, events + logged;
    }

    /** Visits every result: the new records of the devices that are still tracked,
        and the transition rows in visiting order. */
    static method ProbeLoop(devs: map<string, Dev>, results: map<string, LivePart>, now: int)
      returns (next: map<string, Dev>, logged: seq<SeenEvent>, ghost visited: seq<string>)
      ensures Listing(visited, results.Keys)
      ensures devs + next == ProbeDevs(devs, results, now)
      ensures logged == ProbeEvents(devs, results, now, visited)
    {
      next, logged, visited := map[], [], [];
      var todo := results.Keys;
      while todo != {}
        invariant todo <= results.Keys
        invariant Listing(visited, results.Keys - todo)
        invariant forall m :: m in next <==> m in devs && m in results && m !in todo
        invariant forall m :: m in next ==> next[m] == ProbeDev(devs[m], results[m], now)
        invariant logged == ProbeEvents(devs, results, now, visited)
      {
        var mac :| mac in todo;
        todo := todo - {mac};
        visited := visited + [mac];
        assert visited[..|visited| - 1] + [mac] == visited;
        if mac !in devs {
          continue;
        }
        var ds, row := ProbeOne(mac, devs[mac], results[mac], now);
        next := next[mac := ds];
        logged := logged + row;
      }
      assert results.Keys - todo == results.Keys;
    }

    /** The body of the probe loop for one device: its new record, and the
        transition row that it logs, if any. */
    static method ProbeOne(mac: string, was: Dev, part: LivePart, now: int) returns (ds: Dev, logged: seq<SeenEvent>)
      ensures ds == ProbeDev(was, part, now)
      ensures logged == Transition(mac, was.status, SignalOf(part), now)
    {
      ds, logged := was.(live := part), [];
      var signal := NoSignal;
      if part.icmp.Some? && part.icmp.value.st == Up {
        signal := Icmp;
        if !ds.pres.icmp {
          ds := ds.(pres := ds.pres.(icmp := true), dirty := true);
        }
      } else {
        for i := 0 to |part.probes|
          invariant signal == NoSignal
          invariant forall k :: 0 <= k < i ==> part.probes[k].st != Up
        {
          if part.probes[i].st == Up {
            signal := Tcp;
            break;
          }
        }
      }
      assert signal == SignalOf(part);
      var status := Down;
      if signal != NoSignal {
        status := Up;
        ds := ds.(pres := ds.pres.(up := now, seen := now), dirty := true);
      }
      if ds.status != NoVerdict && ds.status != Said(status) {
        logged := [SeenEvent(mac, now, status, signal)];
      }
      ds := ds.(status := Said(status));
    }

    method ClearLive()
      modifies this`devs
      ensures View() == ClearMem(old(View()))
    {
      ghost var devs0 := devs;
      var todo := devs.Keys;
      while todo != {}
        invariant todo <= devs0.Keys && devs.Keys == devs0.Keys
        invariant forall m :: m in devs ==>
                    devs[m] == if m in todo then devs0[m] else devs0[m].(live := NO_LIVE, status := NoVerdict)
      {
        var mac :| mac in todo;
        todo := todo - {mac};
        devs := devs[mac := devs[mac].(live := NO_LIVE, status := NoVerdict)];
      }
    }

    /** One record per entry of `order`. When the order lists exactly the
        tracked MACs, as it does after every Load, none is skipped. */
    method Snap() returns (out: seq<Dev>)
      ensures Listing(order, devs.Keys) ==> |out| == |order| && forall i :: 0 <= i < |out| ==> out[i] == devs[order[i]]
    {
      out := [];
      for i := 0 to |order|
        invariant Listing(order, devs.Keys) ==> |out| == i && forall k :: 0 <= k < i ==> out[k] == devs[order[k]]
      {
        assert order[i] in order;
        if order[i] in devs {
          out := out + [devs[order[i]]];
        }
      }
    }

    method TouchObserved(mac: string, ip: string, name: string, now: int)
      requires Valid()
      modifies this`obs, this`obsDirty
      ensures Valid() && View() == TouchMem(old(View()), mac, ip, name, now)
    {
      var cur := if mac in obs then obs[mac] else Observed("", "", "", 0);
      cur := cur.(mac := mac, ip := ip, lastSeen := now);
      if name != "" {
        cur := cur.(name := name);
      }
      obs := obs[mac := cur];
      var flushed := if mac in obsFlushed then obsFlushed[mac] else 0;
      if now - flushed >= WRITE_EVERY {
        obsDirty := obsDirty + {mac};
      }
    }

    /** Remembered hosts seen since `since`. Whatever order the map is visited in,
        the result is the one sorted listing of the qualifying hosts. */
    method ObservedSince(since: int) returns (out: seq<Observed>)
      requires Valid()
      ensures Sorted(out)
      ensures forall h :: h in out <==> h.mac in obs && obs[h.mac] == h && h.lastSeen >= since
      ensures forall other :: Sorted(other) && (forall h :: h in other <==> h in out) ==> other == out
    {
      var found: seq<Observed> := [];
      var todo := obs.Keys;
      while todo != {}
        invariant todo <= obs.Keys
        invariant DistinctMacs(found)
        invariant forall h :: h in found <==> h.mac in obs && h.mac !in todo && obs[h.mac] == h && h.lastSeen >= since
      {
        var mac :| mac in todo;
        todo := todo - {mac};
        if obs[mac].lastSeen >= since {
          forall i | 0 <= i < |found|
            ensures found[i].mac != mac
          {
            assert found[i] in found;
          }
          found := found + [obs[mac]];
        }
      }
      out := SortHosts(found);
      forall other | Sorted(other) && (forall h :: h in other <==> h in out)
        ensures other == out
      {
        SortedUnique(other, out);
      }
    }

    method ForgetObserved(mac: string)
      requires Valid()
      modifies this`obs, this`obsDirty, this`obsFlushed
      ensures Valid() && View() == DropHosts(old(View()), {mac})
    {
      obs := obs - {mac};
      obsDirty := obsDirty - {mac};
      obsFlushed := obsFlushed - {mac};
    }

    method PruneObserved(before: int)
      requires Valid()
      modifies this`obs, this`obsDirty, this`obsFlushed
      ensures Valid() && View() == DropHosts(old(View()), Stale(old(obs), before))
    {
      var kept, dirty, flushed := obs, obsDirty, obsFlushed;
      ghost var gone: set<string> := {};
      var todo := obs.Keys;
      while todo != {}
        invariant todo <= obs.Keys
        invariant gone == Stale(obs, before) - todo
        invariant kept == obs - gone && dirty == obsDirty - gone && flushed == obsFlushed - gone
      {
        var mac :| mac in todo;
        todo := todo - {mac};
        if obs[mac].lastSeen < before {
          kept, dirty, flushed := kept - {mac}, dirty - {mac}, flushed - {mac};
          gone := gone + {mac};
        }
      }
      obs, obsDirty, obsFlushed := kept, dirty, flushed;
    }

    /** The batch is what the marks say, in whatever order the maps are visited. */
    method Drain() returns (b: Batch, ghost o: DrainOrder)
      requires Valid()
      modifies this`devs, this`obsDirty, this`obsFlushed, this`ipMoves, this`events
      ensures Valid() && DrainOrderOf(o, old(View()))
      ensures b == DrainBatch(old(View()), o)
      ensures View() == DrainMem(old(View()))
    {
      var seen, devOrder := DrainDevices();
      var hosts, obsOrder := DrainHosts();
      obsDirty := {};
      var moves, moveOrder := DrainMoves();
      ipMoves := map[];
      b := Batch(seen, events, hosts, moves);
      events := [];
      o := DrainOrder(devOrder, obsOrder, moveOrder);
    }

    method DrainDevices() returns (seen: seq<SeenUpdate>, ghost visited: seq<string>)
      modifies this`devs
      ensures Listing(visited, old(devs).Keys)
      ensures seen == DirtyRows(old(devs), visited)
      ensures devs == map mac | mac in old(devs) :: old(devs)[mac].(dirty := false)
    {
      ghost var devs0 := devs;
      seen, visited := [], [];
      var todo := devs.Keys;
      while todo != {}
        invariant todo <= devs0.Keys && devs.Keys == devs0.Keys
        invariant Listing(visited, devs0.Keys - todo)
        invariant seen == DirtyRows(devs0, visited)
        invariant forall m :: m in devs ==> devs[m] == if m in todo then devs0[m] else devs0[m].(dirty := false)
      {
        var mac :| mac in todo;
        todo := todo - {mac};
        visited := visited + [mac];
        assert visited[..|visited| - 1] + [mac] == visited;
        if !devs[mac].dirty {
          continue;
        }
        seen := seen + [SeenUpdate(mac, devs[mac].pres)];
        devs := devs[mac := devs[mac].(dirty := false)];
      }
      assert devs0.Keys - todo == devs0.Keys;
    }

    method DrainHosts() returns (hosts: seq<Observed>, ghost visited: seq<string>)
      requires Valid()
      modifies this`obsFlushed
      ensures Listing(visited, obsDirty)
      ensures hosts == DirtyHosts(obs, visited)
      ensures obsFlushed == old(obsFlushed) + map mac | mac in obsDirty && mac in obs :: obs[mac].lastSeen
    {
      ghost var flushed0 := obsFlushed;
      hosts, visited := [], [];
      var todo := obsDirty;
      while todo != {}
        invariant todo <= obsDirty
        invariant Listing(visited, obsDirty - todo)
        invariant hosts == DirtyHosts(obs, visited)
        invariant forall m :: m in obsFlushed <==> m in flushed0 || (m in visited && m in obs)
        invariant forall m :: m in obsFlushed ==> obsFlushed[m] == if m in visited && m in obs then obs[m].lastSeen else flushed0[m]
      {
        var mac :| mac in todo;
        todo := todo - {mac};
        visited := visited + [mac];
        assert visited[..|visited| - 1] + [mac] == visited;
        if mac in obs {
          var o := obs[mac];
          hosts := hosts + [Observed(o.mac, o.ip, o.name, o.lastSeen)];
          obsFlushed := obsFlushed[mac := o.lastSeen];
        }
      }
      assert obsDirty - todo == obsDirty;
    }

    method DrainMoves() returns (moves: seq<IpMove>, ghost visited: seq<string>)
      ensures Listing(visited, ipMoves.Keys)
      ensures moves == MoveRows(ipMoves, visited)
    {
      moves, visited := [], [];
      var todo := ipMoves.Keys;
      while todo != {}
        invariant todo <= ipMoves.Keys
        invariant Listing(visited, ipMoves.Keys - todo)
        invariant moves == MoveRows(ipMoves, visited)
      {
        var mac :| mac in todo;
        todo := todo - {mac};
        visited := visited + [mac];
        assert visited[..|visited| - 1] + [mac] == visited;
        moves := moves + [IpMove(mac, ipMoves[mac])];
      }
      assert ipMoves.Keys - todo == ipMoves.Keys;
    }

    /** The inverse of Drain, except for moves that have been superseded since. */
    method Restore(b: Batch)
      requires Valid()
      modifies this`devs, this`obsDirty, this`ipMoves, this`events
      ensures Valid() && View() == RestoreMem(old(View()), b)
    {
      RestoreDevices(b.seen);
      RestoreHosts(b.obs);
      RequeueMoves(b.moves);
      events := b.events + events;
    }

    method RestoreDevices(seen: seq<SeenUpdate>)
      modifies this`devs
      ensures devs == map mac | mac in old(devs) :: if HasSeen(seen, mac) then old(devs)[mac].(dirty := true) else old(devs)[mac]
    {
      ghost var devs0 := devs;
      for i := 0 to |seen|
        invariant devs.Keys == devs0.Keys
        invariant forall m :: m in devs ==> devs[m] == if HasSeen(seen[..i], m) then devs0[m].(dirty := true) else devs0[m]
      {
        assert seen[..i + 1] == seen[..i] + [seen[i]];
        HasSeenSnoc(seen[..i], seen[i]);
        var u := seen[i];
        if u.mac in devs {
          devs := devs[u.mac := devs[u.mac].(dirty := true)];
        }
      }
      assert seen[..|seen|] == seen;
    }

    method RestoreHosts(hosts: seq<Observed>)
      modifies this`obsDirty
      ensures obsDirty == old(obsDirty) + set mac | mac in obs && HasHost(hosts, mac)
    {
      ghost var dirty0 := obsDirty;
      for i := 0 to |hosts|
        invariant obsDirty == dirty0 + set mac | mac in obs && HasHost(hosts[..i], mac)
      {
        assert hosts[..i + 1] == hosts[..i] + [hosts[i]];
        HasHostSnoc(hosts[..i], hosts[i]);
        if hosts[i].mac in obs {
          obsDirty := obsDirty + {hosts[i].mac};
        }
      }
      assert hosts[..|hosts|] == hosts;
    }

    method RequeueMoves(moves: seq<IpMove>)
      modifies this`ipMoves
      ensures ipMoves == RestoreMoves(old(ipMoves), moves)
    {
      for i := 0 to |moves|
        invariant ipMoves == RestoreMoves(old(ipMoves), moves[..i])
      {
        assert moves[..i + 1][..i] == moves[..i];
        var m := moves[i];
        if m.mac !in ipMoves {
          ipMoves := ipMoves[m.mac := m.ip];
        }
      }
      assert moves[..|moves|] == moves;
    }
  }

  lemma HasSeenSnoc(seen: seq<SeenUpdate>, u: SeenUpdate)
    ensures forall mac :: HasSeen(seen + [u], mac) <==> HasSeen(seen, mac) || u.mac == mac
  {
    forall mac | HasSeen(seen, mac) || u.mac == mac
      ensures HasSeen(seen + [u], mac)
    {
      if u.mac == mac {
        assert (seen + [u])[|seen|].mac == mac;
      } else {
        var i :| 0 <= i < |seen| && seen[i].mac == mac;
        assert (seen + [u])[i].mac == mac;
      }
    }
  }

  lemma HasHostSnoc(obs: seq<Observed>, o: Observed)
    ensures forall mac :: HasHost(obs + [o], mac) <==> HasHost(obs, mac) || o.mac == mac
  {
    forall mac | HasHost(obs, mac) || o.mac == mac
      ensures HasHost(obs + [o], mac)
    {
      if o.mac == mac {
        assert (obs + [o])[|obs|].mac == mac;
      } else {
        var i :| 0 <= i < |obs| && obs[i].mac == mac;
        assert (obs + [o])[i].mac == mac;
      }
    }
  }
}
