/** The server's cadences over memory and journal: flushing, reloading, retention
    and the probe tick, each composed of locked sections. */
module ServerObject {
  import opened Prelude
  import opened Presence
  import opened Types
  import opened StateSpec
  import opened StateObject
  import opened JournalSpec
  import opened StoreObject
  import opened HostOrder
  import opened Engine

  /** How long transition rows are kept: 90 days, in seconds. */
  const EVENT_TTL := 7776000

  class Server {
    const state: State
    const store: Store
    /** The probe loop's memory of having probed since it last blanked. */
    var probed: bool

    ghost predicate Valid()
      reads this, state, store
    {
      state.Valid() && store.Valid() && InOrder(state.View())
    }

    constructor (state: State, store: Store)
      requires state.Valid() && store.Valid() && InOrder(state.View())
      ensures this.state == state && this.store == store && Valid() && !probed
    {
      this.state := state;
      this.store := store;
      probed := false;
    }

    /** One flush that nothing interrupts. Statement number `fault` of the
        transaction fails, if there are that many. */
    method Flush(fault: nat) returns (failed: bool, ghost visits: DrainOrder)
      requires Valid()
      modifies state, store
      ensures Valid() && DrainOrderOf(visits, old(state.View()))
      ensures var b := DrainBatch(old(state.View()), visits);
              if failed
              then store.View() == old(store.View()) && state.View() == RestoreMem(DrainMem(old(state.View())), b)
              else store.View() == Commit(old(store.View()), b) && state.View() == DrainMem(old(state.View()))
    {
      var b;
      DrainInOrder(state.View());
      b, visits := state.Drain();
      if b.Empty() {
        EmptyCommit(store.View(), b);
        return false, visits;
      }
      failed := store.Flush(b, fault);
      if failed {
        RestoreInOrder(state.View(), b);
        state.Restore(b);
      }
    }

    /** reloadState; a listing that fails is logged and changes nothing. */
    method Reload(listFails: bool, lost: set<string>) returns (ghost order: seq<string>)
      requires Valid()
      modifies state
      ensures Valid() && Listing(order, store.rows.Keys)
      ensures state.View() == if listFails then old(state.View())
                              else LoadMem(old(state.View()), Snapshot(order, Listed(store.rows, lost)))
      ensures !listFails ==> RenderedInOrder(state.View())
    {
      var list;
      list, order := store.List(lost);
      if !listFails {
        ReloadFacts(state.View(), list, Snapshot(order, Listed(store.rows, lost)));
        state.Merge(list);
      }
    }

    /** Retention. The clock is read again for the events, and a deletion that fails is
        logged and leaves its table as it is. */
    method Prune(now: int, later: int, hostsWork: bool, eventsWork: bool)
      requires Valid()
      modifies state, store
      ensures Valid()
      ensures state.View() == DropHosts(old(state.View()), Stale(old(state.obs), now - 604800))
      ensures store.View() == old(store.View()).(
                observed := if hostsWork then PruneHosts(old(store.observed), now - 604800) else old(store.observed),
                events := if eventsWork then Since(old(store.events), later - 7776000) else old(store.events))
    {
      var cutoff := now - OBSERVED_TTL;
      state.PruneObserved(cutoff);
      if hostsWork {
        store.PruneObserved(cutoff);
      }
      if eventsWork {
        store.PruneSeenEvents(later - EVENT_TTL);
      }
    }

    /** probeTracked: exactly the devices with an address are probed; `answer` says
        with what result, and each device is given its own. */
    method ProbeTracked(answer: Dev -> LivePart, now: int) returns (ghost visited: seq<string>)
      requires Valid()
      modifies state
      ensures Valid() && Listing(visited, Answers(old(state.devs), answer).Keys)
      ensures state.View() == ProbeMem(old(state.View()), Answers(old(state.devs), answer), now, visited)
      ensures state.devs.Keys == old(state.devs).Keys
      ensures forall mac :: mac in state.devs ==>
                if old(state.devs)[mac].cfg.ip == "" then state.devs[mac] == old(state.devs)[mac]
                else state.devs[mac].live == answer(old(state.devs)[mac])
    {
      var snap := state.Snap();
      var results: map<string, LivePart> := map[];
      for i := 0 to |snap|
        invariant state.View() == old(state.View())
        invariant forall k :: 0 <= k < |snap| ==> snap[k] == state.devs[state.order[k]]
        invariant results.Keys == set k | 0 <= k < i && snap[k].cfg.ip != "" :: state.order[k]
        invariant forall mac :: mac in results ==> mac in state.devs && results[mac] == answer(state.devs[mac])
      {
        assert state.order[i] in state.order;
        if snap[i].cfg.ip == "" {
          continue;
        }
        results := results[snap[i].cfg.mac := answer(snap[i])];
      }
      AllAnswered(state.View(), results, answer);
      ProbeInOrder(state.View(), results, now);
      visited := state.ApplyProbes(results, now);
    }

    /** One tick of the probe loop. */
    method ProbeTick(gateOpen: bool, answer: Dev -> LivePart, now: int) returns (ghost visited: seq<string>)
      requires Valid()
      modifies this`probed, state
      ensures Valid() && probed == gateOpen
      ensures !gateOpen ==> state.View() == if old(probed) then ClearMem(old(state.View())) else old(state.View())
      ensures gateOpen ==> Listing(visited, Answers(old(state.devs), answer).Keys)
      ensures gateOpen ==> state.View() == ProbeMem(old(state.View()), Answers(old(state.devs), answer), now, visited)
    {
      visited := [];
      if !gateOpen {
        if probed {
          state.ClearLive();
          probed := false;
        }
        return;
      }
      probed := true;
      visited := ProbeTracked(answer, now);
    }
  }

  /** The render order is the display order of the settings that memory has. */
  ghost predicate RenderedInOrder(m: Mem) {
    forall i, j :: 0 <= i < j < |m.order| ==>
      m.order[i] in m.devs && m.order[j] in m.devs && !ShownBefore(m.devs[m.order[j]].cfg, m.devs[m.order[i]].cfg)
  }

  lemma ReloadFacts(m: Mem, list: seq<Device>, snap: Snapshot)
    requires DistinctDevices(list) && InDisplayOrder(list) && SnapshotOf(list) == snap
    requires Listing(snap.order, snap.rows.Keys)
    ensures InOrder(LoadMem(m, snap)) && RenderedInOrder(LoadMem(m, snap))
  {
    ListedOrder(m, list);
    RowsOfKeys(list);
  }

  lemma ListedOrder(m: Mem, list: seq<Device>)
    requires DistinctDevices(list) && InDisplayOrder(list)
    ensures RenderedInOrder(LoadMem(m, SnapshotOf(list)))
  {
    var after := LoadMem(m, SnapshotOf(list));
    forall i | 0 <= i < |list|
      ensures after.order[i] == list[i].mac && list[i].mac in after.devs && after.devs[list[i].mac].cfg == list[i]
    {
      RowsOfAt(list, i);
    }
  }

  /** The probe cycle's results: the own answer of every device with an address. */
  function Answers(devs: map<string, Dev>, answer: Dev -> LivePart): map<string, LivePart> {
    map mac | mac in devs && devs[mac].cfg.ip != "" :: answer(devs[mac])
  }

  lemma AllAnswered(m: Mem, results: map<string, LivePart>, answer: Dev -> LivePart)
    requires InOrder(m)
    requires results.Keys == set k | 0 <= k < |m.order| && m.devs[m.order[k]].cfg.ip != "" :: m.order[k]
    requires forall mac :: mac in results ==> mac in m.devs && results[mac] == answer(m.devs[mac])
    ensures results == Answers(m.devs, answer)
  {
    forall mac | mac in Answers(m.devs, answer)
      ensures mac in results
    {
      assert mac in m.order;
      var k :| 0 <= k < |m.order| && m.order[k] == mac;
    }
  }

  lemma DrainInOrder(m: Mem)
    requires InOrder(m)
    ensures InOrder(DrainMem(m))
  {
  }

  lemma RestoreInOrder(m: Mem, b: Batch)
    requires InOrder(m)
    ensures InOrder(RestoreMem(m, b))
  {
  }

  lemma ProbeInOrder(m: Mem, results: map<string, LivePart>, now: int)
    requires InOrder(m)
    ensures forall order :: InOrder(ProbeMem(m, results, now, order))
  {
  }

  // ---- a failed flush with nothing in between -------------------------------

  lemma {:induction false} HasSeenIff(devs: map<string, Dev>, order: seq<string>, mac: string)
    ensures HasSeen(DirtyRows(devs, order), mac) <==> mac in order && mac in devs && devs[mac].dirty
  {
    if order != [] {
      var n := |order| - 1;
      var rest, last := DirtyRows(devs, order[..n]), order[n];
      HasSeenIff(devs, order[..n], mac);
      assert order == order[..n] + [last];
      if last in devs && devs[last].dirty {
        HasSeenSnoc(rest, SeenUpdate(last, devs[last].pres));
      } else {
        assert DirtyRows(devs, order) == rest;
      }
    }
  }

  lemma {:induction false} HasHostIff(obs: map<string, Observed>, order: seq<string>, mac: string)
    requires forall m :: m in obs ==> obs[m].mac == m
    ensures HasHost(DirtyHosts(obs, order), mac) <==> mac in order && mac in obs
  {
    if order != [] {
      var n := |order| - 1;
      var rest, last := DirtyHosts(obs, order[..n]), order[n];
      HasHostIff(obs, order[..n], mac);
      assert order == order[..n] + [last];
      if last in obs {
        HasHostSnoc(rest, obs[last]);
      } else {
        assert DirtyHosts(obs, order) == rest;
      }
    }
  }

  lemma {:induction false} RequeueAll(moves: map<string, string>, order: seq<string>)
    requires forall i, j :: 0 <= i < j < |order| ==> order[i] != order[j]
    ensures RestoreMoves(map[], MoveRows(moves, order)) == map mac | mac in moves && mac in order :: moves[mac]
  {
    if order != [] {
      var n := |order| - 1;
      var rest, last := MoveRows(moves, order[..n]), order[n];
      RequeueAll(moves, order[..n]);
      assert order == order[..n] + [last];
      if last in moves {
        assert (rest + [IpMove(last, moves[last])])[..|rest|] == rest;
      } else {
        assert MoveRows(moves, order) == rest;
      }
    }
  }

  lemma DevsComeBack(m: Mem, o: DrainOrder)
    requires Listing(o.devs, m.devs.Keys)
    ensures RestoreMem(DrainMem(m), DrainBatch(m, o)).devs == m.devs
  {
    var after := RestoreMem(DrainMem(m), DrainBatch(m, o)).devs;
    forall mac | mac in m.devs
      ensures after[mac] == m.devs[mac]
    {
      HasSeenIff(m.devs, o.devs, mac);
    }
  }

  lemma HostsComeBack(m: Mem, o: DrainOrder)
    requires Listing(o.obs, m.obsDirty) && m.obsDirty <= m.obs.Keys
    requires forall mac :: mac in m.obs ==> m.obs[mac].mac == mac
    ensures RestoreMem(DrainMem(m), DrainBatch(m, o)).obsDirty == m.obsDirty
  {
    forall mac
      ensures mac in RestoreMem(DrainMem(m), DrainBatch(m, o)).obsDirty <==> mac in m.obsDirty
    {
      HasHostIff(m.obs, o.obs, mac);
    }
  }

  lemma PendingComesBack(m: Mem, o: DrainOrder)
    requires Listing(o.moves, m.ipMoves.Keys)
    ensures RestoreMem(DrainMem(m), DrainBatch(m, o)).ipMoves == m.ipMoves
    ensures RestoreMem(DrainMem(m), DrainBatch(m, o)).events == m.events
  {
    RequeueAll(m.ipMoves, o.moves);
  }

  /** restore undoes drain: every device, dirty mark, pending move and pending event
      is back where it was. Only the throttle's note of the last write keeps the
      value of the attempt. */
  lemma RestoreUndoesDrain(m: Mem, o: DrainOrder)
    requires DrainOrderOf(o, m) && (forall mac :: mac in m.obs ==> m.obs[mac].mac == mac)
    requires m.obsDirty <= m.obs.Keys
    ensures var after := RestoreMem(DrainMem(m), DrainBatch(m, o));
            && after.devs == m.devs && after.order == m.order
            && after.obs == m.obs && after.obsDirty == m.obsDirty
            && after.ipMoves == m.ipMoves && after.events == m.events
  {
    DevsComeBack(m, o);
    HostsComeBack(m, o);
    PendingComesBack(m, o);
  }
}
