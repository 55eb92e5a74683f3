/** The journal as a mutable object: each method is one locked operation of the
    store. Where SQLite can fail, a parameter says whether and where it does. */
module StoreObject {
  import opened Prelude
  import opened Presence
  import opened Types
  import opened JournalSpec
  import opened HostOrder
  import MacText
  import opened StateSpec
  import opened StateObject

  class Store {
    var rows: map<string, Device>
    var events: seq<SeenEvent>
    var observed: map<string, Observed>
    var legacy: Option<seq<LogRow>>

    function View(): Journal
      reads this
    {
      Journal(rows, events, observed, legacy)
    }

    /** The key of a row is its primary-key column. */
    ghost predicate Valid()
      reads this
    {
      forall mac :: mac in rows ==> rows[mac].mac == mac
    }

    constructor (j: Journal)
      requires forall mac :: mac in j.rows ==> j.rows[mac].mac == mac
      ensures Valid() && View() == j
    {
      rows, events, observed, legacy := j.rows, j.events, j.observed, j.legacy;
    }

    /** Every tracked device, once each, in display order. The probes of the devices in
        `lost` cannot be read. */
    method List(lost: set<string>) returns (list: seq<Device>, ghost order: seq<string>)
      requires Valid()
      ensures Listing(order, rows.Keys) && DistinctDevices(list) && InDisplayOrder(list)
      ensures SnapshotOf(list) == Snapshot(order, Listed(rows, lost))
    {
      list, order := [], [];
      var todo := rows.Keys;
      while todo != {}
        invariant ListedSoFar(rows, lost, todo, list, order)
        decreases |todo|
      {
        var mac := NextShown(rows, todo);
        var d := if mac in lost then rows[mac].(probes := []) else rows[mac];
        ListedNext(rows, lost, todo, list, order, mac);
        todo := todo - {mac};
        list, order := list + [d], order + [mac];
      }
      ListedAll(rows, lost, list, order);
    }

    /** One row that no other one comes before. */
    static method NextShown(rows: map<string, Device>, todo: set<string>) returns (mac: string)
      requires todo <= rows.Keys && todo != {}
      ensures FirstOf(rows, todo, mac)
    {
      ghost var first := SomeFirst(rows, todo);
      mac :| mac in todo && forall other :: other in todo ==> !ShownBefore(rows[other], rows[mac]);
    }

    /** One transaction. Its statements are Begin, one for each part of the batch, and
        Commit; number `fault` fails, if there are that many. The deferred rollback
        then leaves every table as it was. */
    method Flush(b: Batch, fault: nat) returns (failed: bool)
      requires Valid()
      modifies this`rows, this`events, this`observed
      ensures Valid()
      ensures failed ==> View() == old(View())
      ensures !failed ==> View() == Commit(old(View()), b)
      ensures failed <==> !b.Empty() && fault < |b.seen| + |Effective(b.moves)| + |b.events| + |b.obs| + 2
    {
      if b.Empty() {
        EmptyCommit(View(), b);
        return false;
      }
      if fault == 0 {
        return true;
      }
      var txRows, txEvents, txHosts, left := rows, events, observed, fault - 1;
      failed, txRows := TxSeen(txRows, b.seen, left);
      if failed {
        return;
      }
      left := left - |b.seen|;
      failed, txRows, left := TxMoves(txRows, b.moves, left);
      if failed {
        return;
      }
      failed, txEvents := TxEvents(txEvents, b.events, left);
      if failed {
        return;
      }
      left := left - |b.events|;
      failed, txHosts := TxHosts(txHosts, b.obs, left);
      if failed {
        return;
      }
      if left == |b.obs| {
        return true;
      }
      ApplyAt(View(), NormBatch(b));
      rows, events, observed := txRows, txEvents, txHosts;
    }

    static method TxSeen(rows: map<string, Device>, seen: seq<SeenUpdate>, fault: nat)
      returns (failed: bool, tx: map<string, Device>)
      ensures failed <==> fault < |seen|
      ensures !failed ==> tx == FlushSeen(rows, NormSeen(seen))
    {
      failed, tx := false, rows;
      ghost var ns := NormSeen(seen);
      for i := 0 to |seen|
        invariant i <= fault && tx == FlushSeen(rows, ns[..i])
      {
        if i == fault {
          return true, tx;
        }
        FlushSeenSnoc(rows, ns, i);
        var mac := MacText.StoreNormalise(seen[i].mac);
        tx := UpdateRow(tx, mac, seen[i].pres);
      }
      assert ns[..|seen|] == ns;
    }

    static method TxMoves(rows: map<string, Device>, moves: seq<IpMove>, fault: nat)
      returns (failed: bool, tx: map<string, Device>, left: nat)
      ensures failed <==> fault < |Effective(moves)|
      ensures !failed ==> tx == FlushMoves(rows, NormMoves(moves)) && left == fault - |Effective(moves)|
    {
      failed, tx, left := false, rows, fault;
      ghost var nm := NormMoves(moves);
      for i := 0 to |moves|
        invariant left == fault - |Effective(moves[..i])|
        invariant tx == FlushMoves(rows, nm[..i])
      {
        FlushMovesSnoc(rows, nm, i);
        EffectiveSnoc(moves, i);
        if moves[i].ip == "" {
          continue;
        }
        if left == 0 {
          return true, tx, left;
        }
        var mac := MacText.StoreNormalise(moves[i].mac);
        tx := MoveRow(tx, IpMove(mac, moves[i].ip));
        left := left - 1;
      }
      assert nm[..|moves|] == nm && moves[..|moves|] == moves;
    }

    static method TxEvents(table: seq<SeenEvent>, events: seq<SeenEvent>, fault: nat)
      returns (failed: bool, tx: seq<SeenEvent>)
      ensures failed <==> fault < |events|
      ensures !failed ==> tx == table + NormEvents(events)
    {
      failed, tx := false, table;
      ghost var ne := NormEvents(events);
      for i := 0 to |events|
        invariant i <= fault && tx == table + ne[..i]
      {
        if i == fault {
          return true, tx;
        }
        var mac := MacText.StoreNormalise(events[i].mac);
        tx := tx + [events[i].(mac := mac)];
      }
      assert ne[..|events|] == ne;
    }

    static method TxHosts(table: map<string, Observed>, obs: seq<Observed>, fault: nat)
      returns (failed: bool, tx: map<string, Observed>)
      ensures failed <==> fault < |obs|
      ensures !failed ==> tx == FlushHosts(table, NormHosts(obs))
    {
      failed, tx := false, table;
      ghost var no := NormHosts(obs);
      for i := 0 to |obs|
        invariant i <= fault && tx == FlushHosts(table, no[..i])
      {
        if i == fault {
          return true, tx;
        }
        FlushHostsSnoc(table, no, i);
        var mac := MacText.StoreNormalise(obs[i].mac);
        tx := UpsertHost(tx, obs[i].(mac := mac));
      }
      assert no[..|obs|] == no;
    }

    /** Inserts a device, or refreshes the one that is there. It fails for an empty MAC,
        and when the statement does. */
    method Add(d: Device, works: bool) returns (ok: bool)
      requires Valid()
      modifies this`rows
      ensures Valid() && (ok <==> works && MacText.NormMAC(d.mac) != "")
      ensures View() == if ok then old(View()).(rows := AddRow(old(rows), d)) else old(View())
    {
      var mac := MacText.StoreNormalise(d.mac);
      if mac == "" || !works {
        return false;
      }
      var name := if d.name == "" then d.ip else d.name;
      if mac in rows {
        var row := rows[mac];
        rows := rows[mac := row.(ip := d.ip, name := if row.name == "" then name else row.name)];
      } else {
        rows := rows[mac := Device(mac, d.ip, name, d.attrs, [], NEVER)];
      }
      ok := true;
    }

    method Patch(m: string, p: JournalSpec.Patch, works: bool) returns (ok: bool)
      requires Valid()
      modifies this`rows
      ensures Valid() && ok == works
      ensures View() == if ok then old(View()).(rows := PatchRow(old(rows), m, p)) else old(View())
    {
      var mac := MacText.StoreNormalise(m);
      ok := works;
      if works && mac in rows {
        var d := PatchDevice(rows[mac], p);
        rows := rows[mac := d];
      }
    }

    /** The SET clause: the supplied columns, one by one. */
    static method PatchDevice(was: Device, p: JournalSpec.Patch) returns (d: Device)
      ensures d == Patched(was, p)
    {
      d := was;
      if p.ip.Some? {
        d := d.(ip := p.ip.value);
      }
      if p.name.Some? {
        d := d.(name := p.name.value);
      }
      if p.nameSource.Some? {
        d := d.(attrs := d.attrs.(nameSource := p.nameSource.value));
      }
      if p.vendor.Some? {
        d := d.(attrs := d.attrs.(vendor := p.vendor.value));
      }
      if p.link.Some? {
        d := d.(attrs := d.attrs.(link := p.link.value));
      }
      if p.notes.Some? {
        d := d.(attrs := d.attrs.(notes := p.notes.value));
      }
      if p.probes.Some? {
        d := d.(probes := p.probes.value);
      }
    }

    /** Untracks a device and forgets its history, in three statements with no
        transaction around them; number `fault` fails, and those before it stand. */
    method Delete(m: string, fault: nat) returns (failed: bool)
      requires Valid()
      modifies this`rows, this`events
      ensures Valid() && (failed <==> fault < 3)
      ensures View() == DeleteDevice(old(View()), m, fault)
    {
      var mac := MacText.StoreNormalise(m);
      if fault == 0 {
        return true;
      }
      if mac in rows {
        rows := rows[mac := rows[mac].(probes := [])];
      }
      if fault == 1 {
        return true;
      }
      var kept := [];
      for i := 0 to |events|
        invariant kept == WithoutMac(events[..i], mac)
      {
        assert events[..i + 1][..i] == events[..i];
        if events[i].mac != mac {
          kept := kept + [events[i]];
        }
      }
      assert events[..|events|] == events;
      events := kept;
      if fault == 2 {
        return true;
      }
      rows := rows - {mac};
      failed := false;
    }

    method PruneSeenEvents(before: int)
      modifies this`events
      ensures View() == old(View()).(events := Since(old(events), before))
    {
      var kept := [];
      for i := 0 to |events|
        invariant kept == Since(events[..i], before)
      {
        assert events[..i + 1][..i] == events[..i];
        if events[i].ts >= before {
          kept := kept + [events[i]];
        }
      }
      assert events[..|events|] == events;
      events := kept;
    }

    method PruneObserved(before: int)
      modifies this`observed
      ensures View() == old(View()).(observed := PruneHosts(old(observed), before))
    {
      ghost var old0 := observed;
      var todo := observed.Keys;
      while todo != {}
        invariant todo <= old0.Keys && todo <= observed.Keys
        invariant forall mac :: mac in observed <==> mac in old0 && (mac in todo || old0[mac].lastSeen >= before)
        invariant forall mac :: mac in observed ==> observed[mac] == old0[mac]
      {
        var mac :| mac in todo;
        todo := todo - {mac};
        if observed[mac].lastSeen < before {
          observed := observed - {mac};
        }
      }
    }

    method DeleteObserved(m: string)
      modifies this`observed
      ensures View() == old(View()).(observed := old(observed) - {MacText.NormMAC(m)})
    {
      var mac := MacText.StoreNormalise(m);
      observed := observed - {mac};
    }

    /** The MACs that a backfill attempt will visit. */
    method LegacyMacs() returns (macs: seq<string>)
      ensures Listing(macs, rows.Keys)
    {
      macs := [];
      var todo := rows.Keys;
      while todo != {}
        invariant todo <= rows.Keys
        invariant Listing(macs, rows.Keys - todo)
      {
        var mac :| mac in todo;
        ListingSnoc(macs, rows.Keys - todo, mac);
        assert rows.Keys - todo + {mac} == rows.Keys - (todo - {mac});
        todo := todo - {mac};
        macs := macs + [mac];
      }
      assert rows.Keys - todo == rows.Keys;
    }

    /** One device of the backfill, under the lock for that device only. */
    method BackfillDevice(mac: string, q: Lookups, updateWorks: bool) returns (failed: bool)
      requires Valid()
      modifies this`rows
      ensures Valid() && failed == !updateWorks
      ensures View() == if failed then old(View()) else BackfillOne(old(View()), mac, q)
    {
      var icmp, up, any := false, 0, 0;
      if legacy.Some? {
        var newestUp, newestAny;
        icmp, newestUp, newestAny := ScanLog(legacy.value, mac);
        icmp := q.icmp && icmp;
        up := if q.up then OrZero(newestUp) else 0;
        any := if q.any then OrZero(newestAny) else 0;
      }
      failed := !updateWorks;
      if updateWorks {
        rows := UpdateRow(rows, mac, Scal(icmp, up, any));
      }
    }

    /** What the three queries read off the log. */
    static method ScanLog(log: seq<LogRow>, mac: string) returns (icmp: bool, up: Option<int>, any: Option<int>)
      ensures icmp == LoggedIcmp(log, mac)
      ensures up == Newest(log, mac, true) && any == Newest(log, mac, false)
    {
      icmp, up, any := false, None, None;
      for i := 0 to |log|
        invariant icmp <==> exists k :: 0 <= k < i && log[k].mac == mac && log[k].signal == LogIcmp
        invariant up == Newest(log[..i], mac, true) && any == Newest(log[..i], mac, false)
      {
        assert log[..i + 1][..i] == log[..i];
        var r := log[i];
        if r.mac == mac {
          any := Some(if any.Some? then Max(any.value, r.ts) else r.ts);
          if UpSignal(r.signal) {
            up := Some(if up.Some? then Max(up.value, r.ts) else r.ts);
          }
          if r.signal == LogIcmp {
            icmp := true;
          }
        }
      }
      assert log[..|log|] == log;
    }

    /** One whole attempt with nothing in between. Device number i has its look-ups
        answered by looks[i] and its update accepted if works[i]; the first failed
        update ends the attempt, with the log still there, and so does a log that
        cannot be dropped. `devices` counts the devices folded in. */
    method BackfillLegacy(looks: seq<Lookups>, works: seq<bool>, dropWorks: bool) returns (failed: bool, devices: nat, macs: seq<string>)
      requires Valid() && |looks| == |works| == |rows|
      modifies this`rows, this`legacy
      ensures Valid() && Listing(macs, old(rows).Keys) && |macs| == |works|
      ensures devices <= |macs| && (forall i :: 0 <= i < devices ==> works[i])
      ensures failed <==> devices < |macs| || !dropWorks
      ensures devices < |macs| ==> !works[devices]
      ensures legacy == if failed then old(legacy) else None
      ensures FoldedTo(old(rows), rows, old(legacy), macs, looks, devices)
    {
      macs := LegacyMacs();
      ListingSize(macs, rows.Keys);
      devices := FoldDevices(macs, looks, works);
      FoldFirstAt(old(View()), macs, looks, devices);
      failed := devices < |macs| || !dropWorks;
      if !failed {
        DropLegacy();
      }
    }

    /** The loop over the listed devices, up to the first update that fails. */
    method FoldDevices(macs: seq<string>, looks: seq<Lookups>, works: seq<bool>) returns (devices: nat)
      requires Valid() && |looks| == |works| == |macs|
      modifies this`rows
      ensures Valid() && devices <= |macs| && (forall i :: 0 <= i < devices ==> works[i])
      ensures devices < |macs| ==> !works[devices]
      ensures View() == FoldFirst(old(View()), macs, looks, devices)
    {
      devices := 0;
      while devices < |macs|
        invariant devices <= |macs| && Valid()
        invariant forall i :: 0 <= i < devices ==> works[i]
        invariant View() == FoldFirst(old(View()), macs, looks, devices)
      {
        var failed := BackfillDevice(macs[devices], looks[devices], works[devices]);
        if failed {
          return;
        }
        devices := devices + 1;
      }
    }

    method DropLegacy()
      modifies this`legacy
      ensures View() == old(View()).(legacy := None)
    {
      legacy := None;
    }
  }

  /** The listing when `todo` is still to be listed. */
  ghost predicate ListedSoFar(rows: map<string, Device>, lost: set<string>, todo: set<string>, list: seq<Device>, order: seq<string>) {
    && todo <= rows.Keys && Listing(order, rows.Keys - todo)
    && |list| == |order| && (forall i :: 0 <= i < |list| ==> list[i].mac == order[i])
    && RowsOf(list).Keys == rows.Keys - todo
    && (forall mac :: mac in rows && mac !in todo ==> RowsOf(list)[mac] == Listed(rows, lost)[mac])
    && InDisplayOrder(list) && forall mac :: mac in todo ==> NotBefore(rows[mac], list)
  }

  lemma ListedNext(rows: map<string, Device>, lost: set<string>, todo: set<string>, list: seq<Device>, order: seq<string>, mac: string)
    requires ListedSoFar(rows, lost, todo, list, order) && FirstOf(rows, todo, mac) && rows[mac].mac == mac
    ensures ListedSoFar(rows, lost, todo - {mac}, list + [Listed(rows, lost)[mac]], order + [mac])
  {
    var d := Listed(rows, lost)[mac];
    ListingSnoc(order, rows.Keys - todo, mac);
    assert rows.Keys - todo + {mac} == rows.Keys - (todo - {mac});
    RowsOfSnoc(list, d);
    ShownSnoc(list, d);
    assert NotBefore(rows[mac], list) && !ShownBefore(rows[mac], d);
    forall other | other in todo
      ensures NotBefore(rows[other], list + [d])
    {
      assert NotBefore(rows[other], list) && !ShownBefore(rows[other], d);
    }
  }

  lemma ListedAll(rows: map<string, Device>, lost: set<string>, list: seq<Device>, order: seq<string>)
    requires ListedSoFar(rows, lost, {}, list, order)
    ensures Listing(order, rows.Keys) && DistinctDevices(list) && InDisplayOrder(list)
    ensures SnapshotOf(list) == Snapshot(order, Listed(rows, lost))
  {
    assert rows.Keys - {} == rows.Keys;
    assert RowsOf(list) == Listed(rows, lost);
  }

  lemma EmptyCommit(j: Journal, b: Batch)
    requires b.Empty()
    ensures Commit(j, b) == j
  {
    assert NormBatch(b) == b;
    assert j.events + b.events == j.events;
  }

  /** The moves for which Flush issues a statement. */
  function Effective(moves: seq<IpMove>): seq<IpMove> {
    if moves == [] then []
    else
      Effective(moves[..|moves| - 1]) + if moves[|moves| - 1].ip == "" then [] else [moves[|moves| - 1]]
  }

  /** The rows after the first n devices of the listing have been folded in: their
      scalars are joined with what was found on them, and nothing else is changed. */
  ghost predicate FoldedTo(before: map<string, Device>, rows: map<string, Device>, legacy: Option<seq<LogRow>>,
                           macs: seq<string>, looks: seq<Lookups>, n: nat)
  {
    && |looks| == |macs| && rows.Keys == before.Keys
    && forall k :: 0 <= k < |macs| && macs[k] in rows ==>
         rows[macs[k]] == if k < n then before[macs[k]].(pres := Join(before[macs[k]].pres, FoundIn(legacy, macs[k], looks[k])))
                          else before[macs[k]]
  }

  function FoldFirst(j: Journal, macs: seq<string>, looks: seq<Lookups>, n: nat): Journal
    requires n <= |macs| == |looks|
  {
    if n == 0 then j else BackfillOne(FoldFirst(j, macs, looks, n - 1), macs[n - 1], looks[n - 1])
  }

  lemma {:induction false} FoldFirstKeeps(j: Journal, macs: seq<string>, looks: seq<Lookups>, n: nat)
    requires n <= |macs| == |looks|
    ensures FoldFirst(j, macs, looks, n).rows.Keys == j.rows.Keys && FoldFirst(j, macs, looks, n).legacy == j.legacy
  {
    if n > 0 {
      FoldFirstKeeps(j, macs, looks, n - 1);
    }
  }

  /** Device number k changes once, in its own round. */
  lemma {:induction false} FoldFirstOne(j: Journal, macs: seq<string>, looks: seq<Lookups>, n: nat, k: nat)
    requires n <= |macs| == |looks| && k < |macs| && macs[k] in j.rows
    requires forall i :: 0 <= i < |macs| && i != k ==> macs[i] != macs[k]
    ensures macs[k] in FoldFirst(j, macs, looks, n).rows
    ensures var was := j.rows[macs[k]];
            FoldFirst(j, macs, looks, n).rows[macs[k]] ==
            if k < n then was.(pres := Join(was.pres, FoundIn(j.legacy, macs[k], looks[k]))) else was
  {
    if n > 0 {
      FoldFirstOne(j, macs, looks, n - 1, k);
      FoldFirstKeeps(j, macs, looks, n - 1);
    }
  }

  lemma FoldFirstAt(j: Journal, macs: seq<string>, looks: seq<Lookups>, n: nat)
    requires n <= |macs| == |looks| && Listing(macs, j.rows.Keys)
    ensures FoldedTo(j.rows, FoldFirst(j, macs, looks, n).rows, j.legacy, macs, looks, n)
  {
    FoldFirstKeeps(j, macs, looks, n);
    forall k | 0 <= k < |macs|
      ensures macs[k] in j.rows
      ensures FoldFirst(j, macs, looks, n).rows[macs[k]] ==
              if k < n then j.rows[macs[k]].(pres := Join(j.rows[macs[k]].pres, FoundIn(j.legacy, macs[k], looks[k])))
              else j.rows[macs[k]]
    {
      assert macs[k] in macs;
      FoldFirstOne(j, macs, looks, n, k);
    }
  }

  lemma {:induction false} EffectiveMeaning(moves: seq<IpMove>)
    ensures forall m :: m in Effective(moves) <==> m in moves && m.ip != ""
    ensures |Effective(moves)| <= |moves|
    ensures (forall i :: 0 <= i < |moves| ==> moves[i].ip != "") <==> Effective(moves) == moves
  {
    if moves != [] {
      var n := |moves| - 1;
      EffectiveMeaning(moves[..n]);
      assert moves == moves[..n] + [moves[n]];
      assert forall i :: 0 <= i < n ==> moves[..n][i] == moves[i];
    }
  }

  lemma {:induction false} EffectivePrefix(moves: seq<IpMove>, i: nat)
    requires i <= |moves|
    ensures |Effective(moves[..i])| <= |Effective(moves)|
    decreases |moves| - i
  {
    if i < |moves| {
      assert moves[..i + 1][..i] == moves[..i];
      EffectivePrefix(moves, i + 1);
    } else {
      assert moves[..i] == moves;
    }
  }

  lemma EffectiveSnoc(moves: seq<IpMove>, i: nat)
    requires i < |moves|
    ensures |Effective(moves[..i + 1])| == |Effective(moves[..i])| + if moves[i].ip == "" then 0 else 1
    ensures |Effective(moves[..i + 1])| <= |Effective(moves)|
  {
    assert moves[..i + 1][..i] == moves[..i];
    EffectivePrefix(moves, i + 1);
  }

  lemma FlushSeenSnoc(rows: map<string, Device>, seen: seq<SeenUpdate>, i: nat)
    requires i < |seen|
    ensures FlushSeen(rows, seen[..i + 1]) == UpdateRow(FlushSeen(rows, seen[..i]), seen[i].mac, seen[i].pres)
  {
    assert seen[..i + 1][..i] == seen[..i];
  }

  lemma FlushMovesSnoc(rows: map<string, Device>, moves: seq<IpMove>, i: nat)
    requires i < |moves|
    ensures FlushMoves(rows, moves[..i + 1]) == MoveRow(FlushMoves(rows, moves[..i]), moves[i])
  {
    assert moves[..i + 1][..i] == moves[..i];
  }

  lemma FlushHostsSnoc(observed: map<string, Observed>, obs: seq<Observed>, i: nat)
    requires i < |obs|
    ensures FlushHosts(observed, obs[..i + 1]) == UpsertHost(FlushHosts(observed, obs[..i]), obs[i])
  {
    assert obs[..i + 1][..i] == obs[..i];
  }
}
