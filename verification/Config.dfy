/** Configuration: what the handlers write, that a reload brings it into memory, and
    that nothing but a reload changes it there. The address is the business of
    IpMoves; it is left out here. */
module Config {
  import opened Prelude
  import opened Presence
  import opened Types
  import opened StateSpec
  import opened JournalSpec
  import opened Engine
  import opened WriteBehind
  import MacText

  /** Two records agree on everything that a user configures, except the address. */
  predicate SameSettings(a: Device, b: Device) {
    a.mac == b.mac && a.name == b.name && a.attrs == b.attrs && a.probes == b.probes
  }

  // ---- the handlers -----------------------------------------------------------

  /** A column that is supplied is written, and one that is not stays. */
  predicate Written<T(==)>(supplied: Option<T>, before: T, after: T) {
    match supplied
    case Some(v) => after == v
    case None => after == before
  }

  /** An edit writes the supplied columns of one row, whatever the spelling of the MAC,
      and leaves its presence, its creation time and every other row alone. */
  lemma PatchMeaning(rows: map<string, Device>, m: string, p: Patch)
    ensures var after, mac := PatchRow(rows, m, p), MacText.NormMAC(m);
            && after.Keys == rows.Keys
            && (forall k :: k in rows && k != mac ==> after[k] == rows[k])
            && (mac in rows ==>
                  var d, d' := rows[mac], after[mac];
                  && d'.mac == d.mac && d'.pres == d.pres && d'.attrs.createdAt == d.attrs.createdAt
                  && Written(p.ip, d.ip, d'.ip) && Written(p.name, d.name, d'.name) && Written(p.probes, d.probes, d'.probes)
                  && Written(p.nameSource, d.attrs.nameSource, d'.attrs.nameSource)
                  && Written(p.vendor, d.attrs.vendor, d'.attrs.vendor)
                  && Written(p.link, d.attrs.link, d'.attrs.link) && Written(p.notes, d.attrs.notes, d'.attrs.notes))
  {
  }

  /** Tracking a MAC: a new row has the given settings, no watchdogs and no presence,
      and is called by its address if it has no name; a row that was there gets the
      address, and a name only if it had none. No MAC, no row. */
  lemma TrackMeaning(rows: map<string, Device>, d: Device)
    ensures var after, mac := AddRow(rows, d), MacText.NormMAC(d.mac);
            && after.Keys == (if mac == "" then rows.Keys else rows.Keys + {mac})
            && (forall k :: k in rows && (k != mac || mac == "") ==> after[k] == rows[k])
            && (mac != "" ==>
                  var row := after[mac];
                  && row.ip == d.ip
                  && (mac !in rows ==>
                        && row.mac == mac && row.attrs == d.attrs && row.probes == []
                        && !row.pres.icmp && row.pres.up == 0 && row.pres.seen == 0
                        && (d.name != "" ==> row.name == d.name) && (d.name == "" ==> row.name == d.ip))
                  && (mac in rows ==>
                        && row.mac == rows[mac].mac && row.attrs == rows[mac].attrs && row.probes == rows[mac].probes
                        && row.pres == rows[mac].pres
                        && (rows[mac].name != "" ==> row.name == rows[mac].name)
                        && (rows[mac].name == "" ==> row.name == if d.name != "" then d.name else d.ip)))
  {
  }

  // ---- the reload -------------------------------------------------------------

  /** After merging a listing memory has exactly the listed devices, in the listed
      order, each with its listed row. What memory is the authority for stays, and the
      scalars are those of either that are further ahead. A device that memory did not
      have starts with the stored scalars, and nothing observed. */
  lemma MergeMeaning(m: Mem, snap: Snapshot)
    requires forall mac :: mac in snap.rows ==> snap.rows[mac].mac == mac
    ensures var after := LoadMem(m, snap);
            && after.devs.Keys == snap.rows.Keys && after.order == snap.order
            && after.obs == m.obs && after.obsDirty == m.obsDirty && after.obsFlushed == m.obsFlushed
            && after.ipMoves == m.ipMoves && after.events == m.events
            && forall mac :: mac in snap.rows ==> Merged(m.devs, snap.rows[mac], after.devs[mac])
  {
  }

  ghost predicate Merged(devs: map<string, Dev>, row: Device, after: Dev) {
    && after.cfg == row
    && (row.mac in devs ==>
          var was := devs[row.mac];
          && after.live == was.live && after.arp == was.arp && after.arpSeen == was.arpSeen
          && after.status == was.status && after.dirty == was.dirty
          && (after.pres.icmp <==> was.pres.icmp || row.pres.icmp)
          && after.pres.up == Max(was.pres.up, row.pres.up) && after.pres.seen == Max(was.pres.seen, row.pres.seen))
    && (row.mac !in devs ==>
          && after.pres == row.pres && !after.dirty && after.status == NoVerdict
          && after.live == LivePart(None, []) && after.arp == ArpDown && after.arpSeen == -1)
  }

  // ---- runs -------------------------------------------------------------------

  /** In memory nothing but a merge touches the settings of a device. */
  lemma SettingsStep(s: Sys, st: Step, mac: string)
    requires mac in s.mem.devs && !st.MergeList?
    ensures mac in Next(s, st).mem.devs && SameSettings(Next(s, st).mem.devs[mac].cfg, s.mem.devs[mac].cfg)
  {
    match st
    case Sense(o) => SettingsSensed(s.mem, o, mac);
    case FailFlight =>
      if s.flight.Some? {
        assert FailStep(s).mem.devs[mac].cfg == s.mem.devs[mac].cfg;
      }
    case _ =>
  }

  lemma SettingsSensed(m: Mem, o: Sensing, mac: string)
    requires mac in m.devs
    ensures mac in SenseMem(m, o).devs && SameSettings(SenseMem(m, o).devs[mac].cfg, m.devs[mac].cfg)
  {
    var d := m.devs[mac];
    match o
    case Neigh(byMac, now) =>
      assert SenseMem(m, o).devs[mac] == NeighDev(d, byMac, mac, now);
    case Probe(results, now, _) =>
      assert SenseMem(m, o).devs[mac] == if mac in results then ProbeDev(d, results[mac], now) else d;
    case _ =>
  }

  ghost predicate NoMerge(steps: seq<Step>) {
    forall i :: 0 <= i < |steps| ==> !steps[i].MergeList?
  }

  lemma {:induction false} SettingsStay(s: Sys, steps: seq<Step>, mac: string)
    requires mac in s.mem.devs && NoMerge(steps)
    ensures mac in Run(s, steps).mem.devs
    ensures SameSettings(Run(s, steps).mem.devs[mac].cfg, s.mem.devs[mac].cfg)
    decreases |steps|
  {
    if steps != [] {
      assert !steps[0].MergeList?;
      assert forall i :: 0 <= i < |steps| - 1 ==> steps[1..][i] == steps[i + 1];
      SettingsStep(s, steps[0], mac);
      SettingsStay(Next(s, steps[0]), steps[1..], mac);
    }
  }

  /** A handler edits, tracks or deletes this device. */
  predicate Edits(st: Step, mac: string) {
    || (st.Manage? && st.a.Track? && MacText.NormMAC(st.a.d.mac) == mac)
    || (st.Manage? && (st.a.Configure? || st.a.Delete?) && MacText.NormMAC(st.a.mac) == mac)
  }

  ghost predicate NoEdit(steps: seq<Step>, mac: string) {
    forall i :: 0 <= i < |steps| ==> !Edits(steps[i], mac)
  }

  /** In the journal nothing but a handler does: no flush, no backfill. */
  lemma RowSettingsStep(s: Sys, st: Step, mac: string)
    requires mac in s.j.rows && !Edits(st, mac)
    ensures mac in Next(s, st).j.rows && SameSettings(Next(s, st).j.rows[mac], s.j.rows[mac])
  {
    match st
    case Manage(a) => ManagedSettings(s.j, a, mac);
    case CommitFlight =>
      if s.flight.Some? {
        ApplyAt(s.j, NormBatch(s.flight.value));
      }
    case _ =>
  }

  lemma ManagedSettings(j: Journal, a: Admin, mac: string)
    requires mac in j.rows && !Edits(Manage(a), mac)
    ensures mac in ManageJournal(j, a).rows && SameSettings(ManageJournal(j, a).rows[mac], j.rows[mac])
  {
  }

  lemma {:induction false} RowSettingsStay(s: Sys, steps: seq<Step>, mac: string)
    requires mac in s.j.rows && NoEdit(steps, mac)
    ensures mac in Run(s, steps).j.rows && SameSettings(Run(s, steps).j.rows[mac], s.j.rows[mac])
    decreases |steps|
  {
    if steps != [] {
      assert !Edits(steps[0], mac);
      assert forall i :: 0 <= i < |steps| - 1 ==> steps[1..][i] == steps[i + 1];
      RowSettingsStep(s, steps[0], mac);
      RowSettingsStay(Next(s, steps[0]), steps[1..], mac);
    }
  }

  lemma {:induction false} ListingWaits(s: Sys, steps: seq<Step>, k: nat)
    requires k < |s.loads| && NoMerge(steps)
    ensures k < |Run(s, steps).loads| && Run(s, steps).loads[k] == s.loads[k]
    decreases |steps|
  {
    if steps != [] {
      assert !steps[0].MergeList?;
      assert forall i :: 0 <= i < |steps| - 1 ==> steps[1..][i] == steps[i + 1];
      LoadsStep(s, steps[0], k);
      ListingWaits(Next(s, steps[0]), steps[1..], k);
    }
  }

  lemma LoadsStep(s: Sys, st: Step, k: nat)
    requires k < |s.loads| && !st.MergeList?
    ensures k < |Next(s, st).loads| && Next(s, st).loads[k] == s.loads[k]
  {
  }

  /** A reload: the listing is read, and merged later. From then on memory has the
      settings of the journal, for as long as no handler edits the device and no other
      listing is merged, whatever else happens before, between and after. */
  lemma ReloadReaches(s: Sys, order: seq<string>, between: seq<Step>, after: seq<Step>, mac: string)
    requires mac in s.j.rows && s.j.rows[mac].mac == mac
    requires NoMerge(between) && NoMerge(after) && NoEdit(between, mac) && NoEdit(after, mac)
    ensures var v := Run(Next(s, ReadList(order, {})), between);
            var t := Run(MergeStep(v, |s.loads|), after);
            && mac in t.j.rows && mac in t.mem.devs
            && SameSettings(t.mem.devs[mac].cfg, t.j.rows[mac]) && SameSettings(t.j.rows[mac], s.j.rows[mac])
  {
    var u := Next(s, ReadList(order, {}));
    NothingLost(s.j.rows);
    assert u.loads[|s.loads|] == Snapshot(order, s.j.rows);
    ListingWaits(u, between, |s.loads|);
    RowSettingsStay(u, between, mac);
    MergeThenRun(Run(u, between), |s.loads|, s.j.rows[mac], after, mac);
  }

  lemma MergeThenRun(v: Sys, k: nat, row: Device, after: seq<Step>, mac: string)
    requires k < |v.loads| && mac in v.loads[k].rows && v.loads[k].rows[mac] == row && row.mac == mac
    requires mac in v.j.rows && SameSettings(v.j.rows[mac], row) && NoMerge(after) && NoEdit(after, mac)
    ensures var t := Run(MergeStep(v, k), after);
            && mac in t.j.rows && mac in t.mem.devs
            && SameSettings(t.mem.devs[mac].cfg, t.j.rows[mac]) && SameSettings(t.j.rows[mac], row)
  {
    var w := MergeStep(v, k);
    assert w.mem.devs[mac] == LoadDev(v.mem.devs, row);
    SettingsStay(w, after, mac);
    RowSettingsStay(w, after, mac);
  }

  /** An edit followed by a reload: what was supplied is what memory shows, the rest is
      what the row had before. */
  lemma EditReaches(s: Sys, m: string, p: Patch, before: seq<Step>, order: seq<string>, between: seq<Step>, after: seq<Step>, mac: string)
    requires mac in s.j.rows && s.j.rows[mac].mac == mac && MacText.NormMAC(m) == mac
    requires NoEdit(before, mac) && NoMerge(between) && NoMerge(after) && NoEdit(between, mac) && NoEdit(after, mac)
    ensures var s2 := Run(Next(s, Manage(Configure(m, p))), before);
            var v := Run(Next(s2, ReadList(order, {})), between);
            var t := Run(MergeStep(v, |s2.loads|), after);
            && mac in t.mem.devs
            && var was, cfg := s.j.rows[mac], t.mem.devs[mac].cfg;
               && Written(p.name, was.name, cfg.name) && Written(p.probes, was.probes, cfg.probes)
               && Written(p.nameSource, was.attrs.nameSource, cfg.attrs.nameSource)
               && Written(p.vendor, was.attrs.vendor, cfg.attrs.vendor)
               && Written(p.link, was.attrs.link, cfg.attrs.link) && Written(p.notes, was.attrs.notes, cfg.attrs.notes)
               && cfg.attrs.createdAt == was.attrs.createdAt
  {
    var s1 := Next(s, Manage(Configure(m, p)));
    PatchMeaning(s.j.rows, m, p);
    RowSettingsStay(s1, before, mac);
    ReloadReaches(Run(s1, before), order, between, after, mac);
  }

  // ---- what is handed over ------------------------------------------------------

  /** A listing has every row; where the probes could not be read it has none of them,
      and everything else is the row. */
  lemma ListedMeaning(rows: map<string, Device>, lost: set<string>)
    ensures var listed := Listed(rows, lost);
            && listed.Keys == rows.Keys
            && forall mac :: mac in rows ==>
                 && listed[mac].probes == (if mac in lost then [] else rows[mac].probes)
                 && listed[mac].(probes := rows[mac].probes) == rows[mac]
  {
  }

  /** Two batches that differ in the spelling of their MACs only. */
  ghost predicate SameButSpelling(a: Batch, b: Batch) {
    && |a.seen| == |b.seen| && |a.events| == |b.events| && |a.obs| == |b.obs| && |a.moves| == |b.moves|
    && (forall i :: 0 <= i < |a.seen| ==> SameMac(a.seen[i].mac, b.seen[i].mac) && a.seen[i].pres == b.seen[i].pres)
    && (forall i :: 0 <= i < |a.events| ==> SameMac(a.events[i].mac, b.events[i].mac) && a.events[i].(mac := "") == b.events[i].(mac := ""))
    && (forall i :: 0 <= i < |a.obs| ==> SameMac(a.obs[i].mac, b.obs[i].mac) && a.obs[i].(mac := "") == b.obs[i].(mac := ""))
    && (forall i :: 0 <= i < |a.moves| ==> SameMac(a.moves[i].mac, b.moves[i].mac) && a.moves[i].ip == b.moves[i].ip)
  }

  predicate SameMac(a: string, b: string) {
    MacText.NormMAC(a) == MacText.NormMAC(b)
  }

  /** A flush does not depend on how the MACs of its batch are spelled. */
  lemma SpellingDoesNotMatter(j: Journal, a: Batch, b: Batch)
    requires SameButSpelling(a, b)
    ensures Commit(j, a) == Commit(j, b)
  {
    assert NormSeen(a.seen) == NormSeen(b.seen);
    assert NormEvents(a.events) == NormEvents(b.events);
    assert NormHosts(a.obs) == NormHosts(b.obs);
    assert NormMoves(a.moves) == NormMoves(b.moves);
  }
}
