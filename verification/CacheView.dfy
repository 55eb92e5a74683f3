/** The neighbour index and the ARP-cache view. */
module CacheView {
  import opened Prelude
  import opened Types
  import opened StateSpec
  import opened StateObject
  import opened HostOrder
  import opened Devices
  import opened Engine

  function Rank(a: Arp): int {
    match a
    case ArpUp => 3
    case ArpStale => 2
    case ArpDown => 1
  }

  /** Position i is the best of the first n positions for its MAC. */
  ghost predicate BestOf(entries: seq<Entry>, n: int, i: int)
    requires 0 <= i < n <= |entries|
  {
    && (forall k :: 0 <= k < n && entries[k].mac == entries[i].mac ==> Rank(entries[k].state) <= Rank(entries[i].state))
    && (forall k :: 0 <= k < i && entries[k].mac == entries[i].mac ==> Rank(entries[k].state) < Rank(entries[i].state))
  }

  /** Indexes the neighbour cache by MAC: every MAC of the cache, each with the
      one entry that is kept for it. */
  method NeighSnapshot(entries: seq<Entry>) returns (byMac: map<string, Entry>)
    ensures forall i :: 0 <= i < |entries| ==> entries[i].mac in byMac
    ensures forall mac :: mac in byMac ==> exists i :: 0 <= i < |entries| && entries[i] == byMac[mac] && entries[i].mac == mac && Freshest(entries, i)
  {
    byMac := map[];
    ghost var at: map<string, int> := map[];
    for n := 0 to |entries|
      invariant Indexed(entries, n, byMac, at)
    {
      var e := entries[n];
      IndexStep(entries, n, byMac, at);
      if e.mac !in byMac || Rank(e.state) > Rank(byMac[e.mac].state) {
        byMac := byMac[e.mac := e];
        at := at[e.mac := n];
      }
    }
    forall mac | mac in byMac
      ensures exists i :: 0 <= i < |entries| && entries[i] == byMac[mac] && entries[i].mac == mac && Freshest(entries, i)
    {
      FreshestOf(entries, at[mac]);
    }
  }

  /** Entry i speaks for its MAC: it is up if any entry of the MAC is, else stale if any
      is, and it is the first one in that state. */
  ghost predicate Freshest(entries: seq<Entry>, i: int)
    requires 0 <= i < |entries|
  {
    forall k :: 0 <= k < |entries| && entries[k].mac == entries[i].mac ==>
      && (entries[k].state == ArpUp ==> entries[i].state == ArpUp)
      && (entries[k].state == ArpStale ==> entries[i].state != ArpDown)
      && (entries[k].state == entries[i].state ==> i <= k)
  }

  lemma FreshestOf(entries: seq<Entry>, i: int)
    requires 0 <= i < |entries| && BestOf(entries, |entries|, i)
    ensures Freshest(entries, i)
  {
  }

  /** The first n entries are indexed; `at` says where each kept one stands. */
  ghost predicate Indexed(entries: seq<Entry>, n: nat, byMac: map<string, Entry>, at: map<string, int>)
    requires n <= |entries|
  {
    && byMac.Keys == at.Keys
    && (forall i :: 0 <= i < n ==> entries[i].mac in at)
    && (forall mac :: mac in at ==> 0 <= at[mac] < n && entries[at[mac]].mac == mac && byMac[mac] == entries[at[mac]])
    && (forall mac :: mac in at ==> BestOf(entries, n, at[mac]))
  }

  lemma IndexStep(entries: seq<Entry>, n: nat, byMac: map<string, Entry>, at: map<string, int>)
    requires n < |entries| && Indexed(entries, n, byMac, at)
    ensures var e := entries[n];
            if e.mac !in byMac || Rank(e.state) > Rank(byMac[e.mac].state)
            then Indexed(entries, n + 1, byMac[e.mac := e], at[e.mac := n]) else Indexed(entries, n + 1, byMac, at)
  {
    var e := entries[n];
    forall mac | mac in at && !(mac == e.mac && Rank(e.state) > Rank(byMac[mac].state))
      ensures BestOf(entries, n + 1, at[mac])
    {
      BestKept(entries, n, at[mac]);
    }
    if e.mac !in at {
      assert BestOf(entries, n + 1, n);
    } else if Rank(e.state) > Rank(byMac[e.mac].state) {
      BestReplaced(entries, n, at[e.mac]);
    }
  }

  lemma BestKept(entries: seq<Entry>, n: int, i: int)
    requires 0 <= i < n < |entries| && BestOf(entries, n, i)
    requires entries[n].mac == entries[i].mac ==> Rank(entries[n].state) <= Rank(entries[i].state)
    ensures BestOf(entries, n + 1, i)
  {
  }

  lemma BestReplaced(entries: seq<Entry>, n: int, i: int)
    requires 0 <= i < n < |entries| && BestOf(entries, n, i)
    requires entries[n].mac == entries[i].mac && Rank(entries[n].state) > Rank(entries[i].state)
    ensures BestOf(entries, n + 1, n)
  {
  }

  datatype CacheRow = CacheRow(ip: string, mac: string, name: string, state: Arp, seen: Shown)

  function MacsOf(rows: seq<CacheRow>): set<string> {
    set i | 0 <= i < |rows| :: rows[i].mac
  }

  ghost predicate DistinctRows(rows: seq<CacheRow>) {
    forall i, j :: 0 <= i < j < |rows| ==> rows[i].mac != rows[j].mac
  }

  /** The untracked neighbours that are on the LAN. */
  function Present(entries: seq<Entry>, tracked: set<string>, onLan: string -> bool): set<string> {
    set i | 0 <= i < |entries| && entries[i].mac !in tracked && onLan(entries[i].ip) :: entries[i].mac
  }

  /** The untracked hosts that are still remembered. */
  function Remembered(obs: map<string, Observed>, tracked: set<string>, since: int): set<string> {
    set mac | mac in obs && mac !in tracked && obs[mac].lastSeen >= since
  }

  /** Entry i is the first on-LAN entry of an untracked MAC, and the row shows it. */
  ghost predicate ShowsEntry(row: CacheRow, entries: seq<Entry>, i: nat, tracked: set<string>, onLan: string -> bool, nameOf: string -> string)
    requires i < |entries|
  {
    var e := entries[i];
    && e.mac !in tracked && onLan(e.ip)
    && (forall k :: 0 <= k < i && entries[k].mac == e.mac ==> !onLan(entries[k].ip))
    && row == CacheRow(e.ip, e.mac, nameOf(e.ip), e.state, Ago(e.seenSec))
  }

  ghost predicate ShownRow(row: CacheRow, entries: seq<Entry>, n: nat, tracked: set<string>, onLan: string -> bool, nameOf: string -> string)
    requires n <= |entries|
  {
    exists i: nat :: i < n && ShowsEntry(row, entries, i, tracked, onLan, nameOf)
  }

  ghost predicate ShownRows(rows: seq<CacheRow>, entries: seq<Entry>, n: nat, tracked: set<string>, onLan: string -> bool, nameOf: string -> string)
    requires n <= |entries|
  {
    forall r :: 0 <= r < |rows| ==> ShownRow(rows[r], entries, n, tracked, onLan, nameOf)
  }

  /** First part of the view: what the kernel shows now. Every host shown is noted
      as sighted. */
  method PresentRows(state: State, entries: seq<Entry>, now: int, onLan: string -> bool, nameOf: string -> string)
    returns (out: seq<CacheRow>)
    requires state.Valid()
    modifies state`obs, state`obsDirty
    ensures state.Valid() && DistinctRows(out)
    ensures MacsOf(out) == Present(entries, state.devs.Keys, onLan)
    ensures ShownRows(out, entries, |entries|, state.devs.Keys, onLan, nameOf)
    ensures state.obs.Keys == old(state.obs).Keys + MacsOf(out)
    ensures forall mac :: mac in state.obs && mac !in MacsOf(out) ==> state.obs[mac] == old(state.obs)[mac]
    ensures Noted(out, old(state.obs), state.obs, now)
  {
    out := [];
    ghost var obs0 := state.obs;
    var present: set<string> := {};
    for n := 0 to |entries|
      invariant state.Valid() && present == MacsOf(out) && DistinctRows(out)
      invariant present == Present(entries[..n], state.devs.Keys, onLan)
      invariant ShownRows(out, entries, n, state.devs.Keys, onLan, nameOf)
      invariant state.obs.Keys == obs0.Keys + present
      invariant forall mac :: mac in state.obs && mac !in present ==> state.obs[mac] == obs0[mac]
      invariant Noted(out, obs0, state.obs, now)
    {
      var e := entries[n];
      PresentSnoc(entries, n, state.devs.Keys, onLan);
      if e.mac in state.devs || e.mac in present || !onLan(e.ip) {
        ShownLater(out, entries, n, state.devs.Keys, onLan, nameOf);
        continue;
      }
      var name := nameOf(e.ip);
      var row := CacheRow(e.ip, e.mac, name, e.state, Ago(e.seenSec));
      MacsSnoc(out, row);
      FirstShown(out, entries, n, state.devs.Keys, onLan, nameOf);
      NotedSnoc(state.View(), out, row, obs0, now);
      present, out := present + {e.mac}, out + [row];
      state.TouchObserved(e.mac, e.ip, name, now);
    }
    assert entries[..|entries|] == entries;
  }

  /** Each host shown is remembered with the address shown, the present time, and the
      name shown if there is one, or else the name it had. */
  ghost predicate Noted(rows: seq<CacheRow>, before: map<string, Observed>, after: map<string, Observed>, now: int) {
    forall r :: 0 <= r < |rows| ==>
      var row := rows[r];
      && row.mac in after && after[row.mac].mac == row.mac
      && after[row.mac].ip == row.ip && after[row.mac].lastSeen == now
      && (row.name != "" ==> after[row.mac].name == row.name)
      && (row.name == "" ==> after[row.mac].name == if row.mac in before then before[row.mac].name else "")
  }

  lemma NotedSnoc(m: Mem, rows: seq<CacheRow>, row: CacheRow, before: map<string, Observed>, now: int)
    requires Noted(rows, before, m.obs, now) && row.mac !in MacsOf(rows)
    requires row.mac in m.obs <==> row.mac in before
    requires row.mac in before ==> m.obs[row.mac] == before[row.mac]
    ensures Noted(rows + [row], before, TouchMem(m, row.mac, row.ip, row.name, now).obs, now)
  {
    var all := rows + [row];
    forall r | 0 <= r < |rows|
      ensures all[r] == rows[r] && rows[r].mac != row.mac
    {
      assert rows[r].mac in MacsOf(rows);
    }
  }

  lemma ShownLater(rows: seq<CacheRow>, entries: seq<Entry>, n: nat, tracked: set<string>, onLan: string -> bool, nameOf: string -> string)
    requires n < |entries| && ShownRows(rows, entries, n, tracked, onLan, nameOf)
    ensures ShownRows(rows, entries, n + 1, tracked, onLan, nameOf)
  {
    forall r | 0 <= r < |rows|
      ensures ShownRow(rows[r], entries, n + 1, tracked, onLan, nameOf)
    {
      assert ShownRow(rows[r], entries, n, tracked, onLan, nameOf);
      var i: nat :| i < n && ShowsEntry(rows[r], entries, i, tracked, onLan, nameOf);
    }
  }

  lemma FirstShown(rows: seq<CacheRow>, entries: seq<Entry>, n: nat, tracked: set<string>, onLan: string -> bool, nameOf: string -> string)
    requires n < |entries| && entries[n].mac !in tracked && onLan(entries[n].ip)
    requires entries[n].mac !in Present(entries[..n], tracked, onLan)
    requires ShownRows(rows, entries, n, tracked, onLan, nameOf)
    ensures var e := entries[n];
            ShownRows(rows + [CacheRow(e.ip, e.mac, nameOf(e.ip), e.state, Ago(e.seenSec))], entries, n + 1, tracked, onLan, nameOf)
  {
    var e := entries[n];
    var row := CacheRow(e.ip, e.mac, nameOf(e.ip), e.state, Ago(e.seenSec));
    var all := rows + [row];
    ShownLater(rows, entries, n, tracked, onLan, nameOf);
    forall k | 0 <= k < n && entries[k].mac == e.mac
      ensures !onLan(entries[k].ip)
    {
      assert entries[..n][k] == entries[k];
    }
    assert ShowsEntry(row, entries, n, tracked, onLan, nameOf);
    forall r | 0 <= r < |all|
      ensures ShownRow(all[r], entries, n + 1, tracked, onLan, nameOf)
    {
      assert r < |rows| ==> all[r] == rows[r];
    }
  }

  lemma MacsSnoc(rows: seq<CacheRow>, row: CacheRow)
    requires DistinctRows(rows)
    ensures MacsOf(rows + [row]) == MacsOf(rows) + {row.mac}
    ensures row.mac !in MacsOf(rows) ==> DistinctRows(rows + [row])
  {
    var all := rows + [row];
    assert forall i :: 0 <= i < |rows| ==> all[i] == rows[i];
    assert all[|rows|] == row;
    forall mac | mac in MacsOf(rows) + {row.mac}
      ensures mac in MacsOf(all)
    {
      if mac != row.mac {
        var i :| 0 <= i < |rows| && rows[i].mac == mac;
        assert all[i].mac == mac;
      }
    }
    forall i, j | 0 <= i < j < |all| && row.mac !in MacsOf(rows)
      ensures all[i].mac != all[j].mac
    {
      assert rows[i].mac in MacsOf(rows);
    }
  }

  lemma PresentSnoc(entries: seq<Entry>, n: nat, tracked: set<string>, onLan: string -> bool)
    requires n < |entries|
    ensures Present(entries[..n + 1], tracked, onLan) ==
            Present(entries[..n], tracked, onLan) + if entries[n].mac !in tracked && onLan(entries[n].ip) then {entries[n].mac} else {}
  {
    var before, after := entries[..n], entries[..n + 1];
    assert forall i :: 0 <= i < n ==> before[i] == after[i];
    assert after[n] == entries[n];
  }

  /** The ARP-cache view is a partition: its first part is exactly what is present,
      its second exactly the hosts that were remembered before the call and are not
      present, though the first part has meanwhile updated the map that the second
      part reads. No MAC appears twice and no tracked device appears at all. */
  method BuildCache(state: State, entries: seq<Entry>, now: int, onLan: string -> bool, nameOf: string -> string)
    returns (out: seq<CacheRow>, split: nat)
    requires state.Valid()
    modifies state`obs, state`obsDirty
    ensures state.Valid() && DistinctRows(out) && split <= |out|
    ensures MacsOf(out[..split]) == Present(entries, state.devs.Keys, onLan)
    ensures MacsOf(out[split..]) == Remembered(old(state.obs), state.devs.Keys, now - 604800) - Present(entries, state.devs.Keys, onLan)
    ensures MacsOf(out) !! state.devs.Keys
    ensures ShownRows(out[..split], entries, |entries|, state.devs.Keys, onLan, nameOf)
    ensures Noted(out[..split], old(state.obs), state.obs, now)
    ensures AllGone(out[split..], old(state.obs), now, nameOf)
  {
    var first := PresentRows(state, entries, now, onLan, nameOf);
    var hosts := state.ObservedSince(now - OBSERVED_TTL);
    var second := GoneRows(hosts, state.devs.Keys, MacsOf(first), now, nameOf, state.obs);
    out, split := first + second, |first|;
    assert out[..split] == first && out[split..] == second;
    SecondPart(hosts, state.obs, old(state.obs), state.devs.Keys, MacsOf(first), now - OBSERVED_TTL);
    DistinctConcat(first, second);
    GoneBefore(second, state.obs, old(state.obs), MacsOf(first), now, nameOf);
  }

  /** Second part of the view: remembered hosts that are not present now. */
  method GoneRows(hosts: seq<Observed>, tracked: set<string>, present: set<string>, now: int, nameOf: string -> string,
                  ghost obs: map<string, Observed>)
    returns (rows: seq<CacheRow>)
    requires Sorted(hosts) && forall h :: h in hosts ==> h.mac in obs && obs[h.mac] == h
    ensures DistinctRows(rows)
    ensures MacsOf(rows) == set k | 0 <= k < |hosts| && hosts[k].mac !in tracked && hosts[k].mac !in present :: hosts[k].mac
    ensures AllGone(rows, obs, now, nameOf)
  {
    rows := [];
    for n := 0 to |hosts|
      invariant DistinctRows(rows)
      invariant MacsOf(rows) == set k | 0 <= k < n && hosts[k].mac !in tracked && hosts[k].mac !in present :: hosts[k].mac
      invariant AllGone(rows, obs, now, nameOf)
    {
      var o := hosts[n];
      assert o in hosts;
      if o.mac in tracked || o.mac in present {
        continue;
      }
      FreshHost(hosts, n, obs);
      var name := if o.name == "" then nameOf(o.ip) else o.name;
      var row := CacheRow(o.ip, o.mac, name, ArpDown, Ago(now - o.lastSeen));
      MacsSnoc(rows, row);
      rows := rows + [row];
    }
  }

  /** A host that is remembered but not present: shown as down, with its last sighting. */
  ghost predicate GoneRow(row: CacheRow, obs: map<string, Observed>, now: int, nameOf: string -> string) {
    && row.mac in obs && row.state == ArpDown
    && row.name == (if obs[row.mac].name == "" then nameOf(obs[row.mac].ip) else obs[row.mac].name)
    && row.ip == obs[row.mac].ip && row.seen == Ago(now - obs[row.mac].lastSeen)
  }

  ghost predicate AllGone(rows: seq<CacheRow>, obs: map<string, Observed>, now: int, nameOf: string -> string) {
    forall i :: 0 <= i < |rows| ==> GoneRow(rows[i], obs, now, nameOf)
  }

  /** The rows of the second part show the hosts as they were before the call. */
  lemma GoneBefore(rows: seq<CacheRow>, obs: map<string, Observed>, before: map<string, Observed>, present: set<string>, now: int,
                   nameOf: string -> string)
    requires AllGone(rows, obs, now, nameOf) && MacsOf(rows) !! present
    requires obs.Keys == before.Keys + present
    requires forall mac :: mac in obs && mac !in present ==> obs[mac] == before[mac]
    ensures AllGone(rows, before, now, nameOf)
  {
    forall i | 0 <= i < |rows|
      ensures GoneRow(rows[i], before, now, nameOf)
    {
      assert rows[i].mac in MacsOf(rows);
    }
  }

  lemma FreshHost(hosts: seq<Observed>, n: nat, obs: map<string, Observed>)
    requires n < |hosts| && Sorted(hosts) && forall h :: h in hosts ==> h.mac in obs && obs[h.mac] == h
    ensures forall k :: 0 <= k < n ==> hosts[k].mac != hosts[n].mac
  {
    forall k | 0 <= k < n
      ensures hosts[k].mac != hosts[n].mac
    {
      assert Precedes(hosts[k], hosts[n]) && hosts[k] in hosts && hosts[n] in hosts;
      LexTotal(hosts[n].mac, hosts[n].mac);
    }
  }

  lemma SecondPart(hosts: seq<Observed>, obs: map<string, Observed>, before: map<string, Observed>, tracked: set<string>, present: set<string>, since: int)
    requires forall h :: h in hosts <==> h.mac in obs && obs[h.mac] == h && h.lastSeen >= since
    requires forall mac :: mac in obs ==> obs[mac].mac == mac
    requires obs.Keys == before.Keys + present
    requires forall mac :: mac in obs && mac !in present ==> obs[mac] == before[mac]
    ensures (set k | 0 <= k < |hosts| && hosts[k].mac !in tracked && hosts[k].mac !in present :: hosts[k].mac) ==
            Remembered(before, tracked, since) - present
  {
    var left := set k | 0 <= k < |hosts| && hosts[k].mac !in tracked && hosts[k].mac !in present :: hosts[k].mac;
    forall mac | mac in left
      ensures mac in Remembered(before, tracked, since) - present
    {
      var k :| 0 <= k < |hosts| && hosts[k].mac !in tracked && hosts[k].mac !in present && hosts[k].mac == mac;
      assert hosts[k] in hosts;
    }
    forall mac | mac in Remembered(before, tracked, since) - present
      ensures mac in left
    {
      assert mac in obs && obs[mac] in hosts;
      var k :| 0 <= k < |hosts| && hosts[k] == obs[mac];
      assert hosts[k].mac == mac;
    }
  }

  lemma DistinctConcat(a: seq<CacheRow>, b: seq<CacheRow>)
    requires DistinctRows(a) && DistinctRows(b)
    requires forall i :: 0 <= i < |b| ==> b[i].mac !in MacsOf(a)
    ensures DistinctRows(a + b) && MacsOf(a + b) == MacsOf(a) + MacsOf(b)
  {
    var all := a + b;
    assert forall i :: 0 <= i < |a| ==> all[i] == a[i] && a[i].mac in MacsOf(a);
    assert forall i :: 0 <= i < |b| ==> all[|a| + i] == b[i];
    forall mac | mac in MacsOf(a) + MacsOf(b)
      ensures mac in MacsOf(all)
    {
      if mac in MacsOf(a) {
        var i :| 0 <= i < |a| && a[i].mac == mac;
        assert all[i].mac == mac;
      } else {
        var i :| 0 <= i < |b| && b[i].mac == mac;
        assert all[|a| + i].mac == mac;
      }
    }
  }
}
